/** The executor's threads. The main thread hands calls to worker threads through two events per
    thread: `ready` is set by main and reset by the worker, `done` is set by the worker and reset by
    main. Main may stop waiting at any time and goes on with other threads; a second, colliding pass
    runs the program again without reporting. Every step below touches at most one event that the
    other side can change. */
module Executor {

  /** Where a worker is: waiting for `ready`, woken, executing its call, about to set `done`. */
  datatype Phase = Idle | Woken | Working | Finishing

  /** `ran` is the call whose outcome the thread holds. */
  datatype Thread = Thread(created: bool, ready: bool, done: bool, executing: bool, index: nat, phase: Phase, ran: int)

  const NOTHING: int := -1

  /** Where the main thread is. */
  datatype Main =
    | Scan(i: nat)       // looking for a spare thread from i on
    | Found(i: nat)      // thread i is done
    | Take(i: nat)       // thread i is to be taken for the call
    | Give(i: nat)       // its `done` is reset
    | Wait(i: nat)       // waiting for the call, with a time limit
    | Waited(i: nat)     // the call was done in time
    | Poll(j: nat)       // looking for other completed calls
    | Polled(j: nat)     // thread j has completed
    | Direct(i: nat)     // without threads: main resets `ready`
    | Executed(i: nat)   // without threads: main has executed the call
    | Handle(i: nat)     // without threads: main has set `done`
    | EndOfPass
    | Grace(j: nat)      // extra time for unfinished calls
    | Graced(j: nat)     // thread j has completed in the extra time
    | Flush(j: nat)      // reporting unfinished calls
    | Finished
    | OutOfThreads       // the process exits
    | Bad                // a check has failed

  /** What does not change: number of calls, number of threads, flags. */
  datatype Config = Config(calls: nat, threads: nat, threaded: bool, collide: bool)

  /** `next` is the index of the next call of the pass; `reported` are the call indices in the output, and
      `outcomes` says for each record the outcome of which call it holds: none if the call has not finished. */
  datatype State = State(threads: seq<Thread>, main: Main, running: int, next: nat, colliding: bool,
                         reported: seq<nat>, outcomes: seq<int>)

  function Init(c: Config): State {
    State(seq(c.threads, _ => Thread(false, false, false, false, 0, Idle, NOTHING)), Scan(0), 0, 0, false, [], [])
  }

  // ---- steps of the main thread ----

  function Fail(s: State): State { s.(main := Bad) }

  /** Completion of the call of thread i: its record is written in the first pass. */
  function Complete(s: State, i: nat, goto: Main): State
    requires i < |s.threads|
  {
    var t := s.threads[i];
    if t.ready || !t.done || !t.executing || s.running - 1 < 0 then Fail(s)
    else
      s.(threads := s.threads[i := t.(executing := false)], running := s.running - 1, main := goto,
         reported := if s.colliding then s.reported else s.reported + [t.index],
         outcomes := if s.colliding then s.outcomes else s.outcomes + [t.ran])
  }

  /** After a call has been handled: the next one, or the end of the pass. */
  function Advance(c: Config, s: State): Main {
    if s.next < c.calls then Scan(0) else EndOfPass
  }

  function AfterEnd(c: Config, s: State): State {
    if c.collide && !s.colliding
    then var s1 := s.(colliding := true, next := 0); s1.(main := Advance(c, s1))
    else s.(main := Finished)
  }

  /** One step of main. `timely` says whether a wait with a time limit lasts long enough. */
  function MainStep(c: Config, s: State, timely: bool): State
    requires |s.threads| == c.threads
  {
    match s.main
    case Scan(i) =>
      if c.calls <= s.next then s.(main := EndOfPass)
      else if i >= c.threads then s.(main := OutOfThreads)
      else
        var t := s.threads[i];
        if !t.created then s.(threads := s.threads[i := Thread(true, false, true, false, t.index, Idle, t.ran)])
        else if t.done then s.(main := Found(i))
        else s.(main := Scan(i + 1))
    case Found(i) =>
      if i >= c.threads then Fail(s)
      else if s.threads[i].executing then Complete(s, i, Take(i))
      else s.(main := Take(i))
    case Take(i) =>
      if i >= c.threads then Fail(s)
      else
        var t := s.threads[i];
        if t.ready || !t.done || t.executing then Fail(s)
        else s.(threads := s.threads[i := t.(done := false)], main := Give(i))
    case Give(i) =>
      if i >= c.threads || s.threads[i].ready then Fail(s)
      else
        var t := s.threads[i];
        var s1 := s.(threads := s.threads[i := t.(executing := true, index := s.next, ready := true)],
                     running := s.running + 1, next := s.next + 1);
        s1.(main := if s1.colliding && s1.next % 2 == 0 then Advance(c, s1)
                    else if c.threaded then Wait(i)
                    else Direct(i))
    case Wait(i) =>
      if i >= c.threads then Fail(s)
      else if timely && s.threads[i].done then s.(main := Waited(i))
      else s.(main := Poll(0))
    case Waited(i) => if i >= c.threads then Fail(s) else Complete(s, i, Poll(0))
    case Poll(j) =>
      if j >= c.threads then s.(main := Advance(c, s))
      else if s.threads[j].executing && s.threads[j].done then s.(main := Polled(j))
      else s.(main := Poll(j + 1))
    case Polled(j) => if j >= c.threads then Fail(s) else Complete(s, j, Poll(j + 1))
    case Direct(i) =>
      if i >= c.threads || i != 0 then Fail(s)
      else
        var t := s.threads[i];
        s.(threads := s.threads[i := t.(ready := false, ran := t.index)], main := Executed(i))
    case Executed(i) =>
      if i >= c.threads || s.threads[i].done then Fail(s)
      else s.(threads := s.threads[i := s.threads[i].(done := true)], main := Handle(i))
    case Handle(i) => if i >= c.threads then Fail(s) else Complete(s, i, Advance(c, s))
    case EndOfPass => if !s.colliding && s.running > 0 then s.(main := Grace(0)) else AfterEnd(c, s)
    case Grace(j) =>
      if j >= c.threads then
        if s.running > 0 && timely then s.(main := Grace(0))
        else if s.running > 0 then s.(main := Flush(0))
        else AfterEnd(c, s)
      else if s.threads[j].executing && s.threads[j].done then s.(main := Graced(j))
      else s.(main := Grace(j + 1))
    case Graced(j) => if j >= c.threads then Fail(s) else Complete(s, j, Grace(j + 1))
    case Flush(j) =>
      if j >= c.threads then AfterEnd(c, s)
      else if s.threads[j].executing then
        s.(reported := s.reported + [s.threads[j].index], outcomes := s.outcomes + [NOTHING], main := Flush(j + 1))
      else s.(main := Flush(j + 1))
    case _ => s
  }

  // ---- steps of the workers ----

  function WorkerStep(c: Config, s: State, i: nat): State
    requires |s.threads| == c.threads
  {
    if i >= c.threads || !c.threaded || !s.threads[i].created then s
    else
      var t := s.threads[i];
      match t.phase
      case Idle => if t.ready then s.(threads := s.threads[i := t.(phase := Woken)]) else s
      case Woken => s.(threads := s.threads[i := t.(ready := false, phase := Working)])
      case Working => s.(threads := s.threads[i := t.(phase := Finishing, ran := t.index)])
      case Finishing => if t.done then Fail(s) else s.(threads := s.threads[i := t.(done := true, phase := Idle)])
  }

  /** Any interleaving: main or one of the workers makes a step. */
  ghost predicate Next(c: Config, s: State, s': State) {
    |s.threads| == c.threads &&
    ((exists timely :: s' == MainStep(c, s, timely)) || (exists i: nat :: s' == WorkerStep(c, s, i)))
  }

  ghost predicate Run(c: Config, run: seq<State>) {
    run != [] && run[0] == Init(c) && forall k :: 0 <= k < |run| - 1 ==> Next(c, run[k], run[k + 1])
  }

  // ---- what every step keeps ----

  /** The events of a thread agree with what main and its worker are doing. */
  predicate ThreadOk(c: Config, m: Main, t: Thread, i: nat) {
    && (t.executing && (t.done || t.phase == Finishing || m == Executed(i)) ==> t.ran == t.index)
    && EventsOk(c, m, t, i)
  }

  predicate EventsOk(c: Config, m: Main, t: Thread, i: nat) {
    if !t.created then !t.executing && !t.ready && !t.done && t.phase == Idle && m != Give(i) && m != Direct(i)
      && m != Executed(i)
    else if m == Give(i) then !t.executing && !t.ready && !t.done && t.phase == Idle
    else if m == Direct(i) then t.executing && t.ready && !t.done && t.phase == Idle
    else if m == Executed(i) then t.executing && !t.ready && !t.done && t.phase == Idle
    else if !t.executing then !t.ready && t.done && t.phase == Idle
    else if !c.threaded then m == Handle(i) && !t.ready && t.done && t.phase == Idle
    else
      match t.phase
      case Idle => t.ready == !t.done
      case Woken => t.ready && !t.done
      case _ => !t.ready && !t.done
  }

  /** The threads below i are all executing. */
  predicate Busy(ts: seq<Thread>, i: nat) { forall j :: 0 <= j < i && j < |ts| ==> ts[j].executing }

  predicate MainOk(c: Config, s: State)
    requires |s.threads| == c.threads
  {
    match s.main
    case Scan(i) => (!c.threaded ==> i == 0) && Busy(s.threads, i)
    case Found(i) => i < c.threads && s.threads[i].created && s.threads[i].done && s.next < c.calls
      && (!c.threaded ==> i == 0)
    case Take(i) => i < c.threads && s.threads[i].created && s.threads[i].done && !s.threads[i].executing
      && s.next < c.calls && (!c.threaded ==> i == 0)
    case Give(i) => i < c.threads && s.threads[i].created && s.next < c.calls && (!c.threaded ==> i == 0)
    case Wait(i) => i < c.threads && s.threads[i].executing && c.threaded && !(s.colliding && s.next % 2 == 0)
    case Waited(i) => i < c.threads && s.threads[i].executing && s.threads[i].done && c.threaded
      && !(s.colliding && s.next % 2 == 0)
    case Poll(_) => c.threaded
    case Polled(j) => j < c.threads && s.threads[j].executing && s.threads[j].done && c.threaded
    case Direct(i) => i == 0 < c.threads && s.threads[i].executing && !c.threaded
    case Executed(i) => i == 0 < c.threads && s.threads[i].executing && !c.threaded
    case Handle(i) => i == 0 < c.threads && s.threads[i].executing && s.threads[i].done && !c.threaded
    case EndOfPass => s.next == c.calls
    case Grace(_) => s.next == c.calls && !s.colliding && c.threaded
    case Graced(j) => j < c.threads && s.threads[j].executing && s.threads[j].done && s.next == c.calls && !s.colliding
      && c.threaded
    case Flush(_) => s.next == c.calls && !s.colliding && c.threaded
    case Finished => s.next == c.calls && (s.colliding <==> c.collide)
    case OutOfThreads => s.next < c.calls && Busy(s.threads, c.threads)
    case Bad => false
  }

  function Executing(ts: seq<Thread>): nat {
    if ts == [] then 0 else (if ts[0].executing then 1 else 0) + Executing(ts[1..])
  }

  ghost predicate Pending(ts: seq<Thread>, k: nat) {
    exists i :: 0 <= i < |ts| && ts[i].executing && ts[i].index == k
  }

  /** Threads below j have had their unfinished calls reported. */
  function Flushed(m: Main): nat { if m.Flush? then m.j else 0 }

  /** In the first pass every scheduled call is either reported once or still executing on one thread. */
  ghost predicate Accounted(s: State) {
    && (forall a, b :: 0 <= a < b < |s.reported| ==> s.reported[a] != s.reported[b])
    && (forall k :: k in s.reported ==> k < s.next)
    && (forall k: nat :: k < s.next ==> k in s.reported || Pending(s.threads, k))
    && (forall i :: 0 <= i < |s.threads| && s.threads[i].executing ==>
          s.threads[i].index < s.next && (i < Flushed(s.main) <==> s.threads[i].index in s.reported))
    && (forall i, j :: 0 <= i < j < |s.threads| && s.threads[i].executing && s.threads[j].executing ==>
          s.threads[i].index != s.threads[j].index)
  }

  /** Every call of the program has exactly one record. */
  ghost predicate AllReported(c: Config, reported: seq<nat>) {
    && (forall a, b :: 0 <= a < b < |reported| ==> reported[a] != reported[b])
    && (forall k: nat :: k in reported <==> k < c.calls)
  }

  /** A record holds the outcome of its own call, or none if the call is still being executed at the end of
      the first pass. */
  ghost predicate OutcomesOk(s: State) {
    && |s.outcomes| == |s.reported|
    && (forall a :: 0 <= a < |s.reported| ==> s.outcomes[a] == s.reported[a] || s.outcomes[a] == NOTHING)
    && (!s.colliding ==> forall a :: 0 <= a < |s.reported| ==>
          (s.outcomes[a] == NOTHING <==> Pending(s.threads, s.reported[a])))
  }

  ghost predicate Records(c: Config, s: State) {
    && OutcomesOk(s)
    && if s.colliding || s.main == Finished then AllReported(c, s.reported) else Accounted(s)
  }

  ghost predicate Inv(c: Config, s: State) {
    && |s.threads| == c.threads && (c.collide ==> c.threaded) && (s.colliding ==> c.collide) && s.next <= c.calls
    && (forall i :: 0 <= i < c.threads ==> ThreadOk(c, s.main, s.threads[i], i))
    && MainOk(c, s) && s.running == Executing(s.threads) && Records(c, s)
  }

  lemma {:induction false} ExecutingUpdate(ts: seq<Thread>, i: nat, t: Thread)
    requires i < |ts|
    ensures Executing(ts[i := t]) == Executing(ts) - (if ts[i].executing then 1 else 0) + (if t.executing then 1 else 0)
  {
    if i == 0 {
      assert ts[0 := t][1..] == ts[1..];
    } else {
      assert ts[i := t][1..] == ts[1..][i - 1 := t];
      ExecutingUpdate(ts[1..], i - 1, t);
    }
  }

  lemma {:induction false} ExecutingPositive(ts: seq<Thread>, i: nat)
    requires i < |ts| && ts[i].executing
    ensures Executing(ts) > 0
  {
    if i > 0 {
      ExecutingPositive(ts[1..], i - 1);
    }
  }

  lemma {:induction false} NoneExecuting(ts: seq<Thread>)
    ensures Executing(ts) == 0 ==> forall i :: 0 <= i < |ts| ==> !ts[i].executing
  {
    if ts != [] {
      NoneExecuting(ts[1..]);
    }
  }

  // ---- workers ----

  lemma WorkerKeepsRecords(c: Config, s: State, s': State, i: nat, t: Thread)
    requires i < |s.threads| && t.executing == s.threads[i].executing && t.index == s.threads[i].index
    requires s' == s.(threads := s.threads[i := t]) && Records(c, s)
    ensures Records(c, s') && Executing(s'.threads) == Executing(s.threads)
  {
    ExecutingUpdate(s.threads, i, t);
    forall k: nat
      ensures Pending(s'.threads, k) <==> Pending(s.threads, k)
    {
      if Pending(s.threads, k) {
        var j :| 0 <= j < |s.threads| && s.threads[j].executing && s.threads[j].index == k;
        assert s'.threads[j].executing && s'.threads[j].index == k;
      }
    }
  }

  lemma WorkerKeepsMain(c: Config, s: State, s': State, i: nat, t: Thread)
    requires |s.threads| == c.threads && i < c.threads && t.executing == s.threads[i].executing
      && t.created == s.threads[i].created && (s.threads[i].done ==> t.done)
    requires s' == s.(threads := s.threads[i := t]) && MainOk(c, s)
    ensures MainOk(c, s')
  {
  }

  lemma WorkerKeeps(c: Config, s: State, i: nat)
    requires Inv(c, s)
    ensures Inv(c, WorkerStep(c, s, i))
  {
    hide Records, MainOk;
    if i < c.threads && c.threaded && s.threads[i].created {
      var s' := WorkerStep(c, s, i);
      assert ThreadOk(c, s.main, s.threads[i], i);
      if s'.threads != s.threads {
        WorkerKeepsRecords(c, s, s', i, s'.threads[i]);
        WorkerKeepsMain(c, s, s', i, s'.threads[i]);
      }
    }
  }

  // ---- main ----

  /** Main states that no thread depends on. */
  predicate Plain(m: Main) {
    !m.Give? && !m.Direct? && !m.Executed? && !m.Handle? && !m.Flush? && !m.Finished? && !m.Bad?
  }

  /** Only the place of main changes. */
  lemma MoveKeeps(c: Config, s: State, m: Main)
    requires Inv(c, s) && Plain(m) && Plain(s.main) && MainOk(c, s.(main := m))
    ensures Inv(c, s.(main := m))
  {
  }

  lemma CompleteAccounted(s: State, i: nat)
    requires i < |s.threads| && s.threads[i].executing && Accounted(s) && Flushed(s.main) == 0
    ensures var s1 := s.(threads := s.threads[i := s.threads[i].(executing := false)], reported :=
                         s.reported + [s.threads[i].index]);
      forall m :: Flushed(m) == 0 ==> Accounted(s1.(main := m))
  {
    var t := s.threads[i];
    var s1 := s.(threads := s.threads[i := t.(executing := false)], reported := s.reported + [t.index]);
    forall k: nat | k < s.next && k !in s1.reported
      ensures Pending(s1.threads, k)
    {
      assert k !in s.reported;
      var j :| 0 <= j < |s.threads| && s.threads[j].executing && s.threads[j].index == k;
      assert k != t.index by { assert s1.reported[|s.reported|] == t.index; }
      assert s1.threads[j] == s.threads[j];
    }
    forall j | 0 <= j < |s1.threads| && s1.threads[j].executing
      ensures s1.threads[j].index !in s1.reported
    {
      assert j != i;
    }
  }

  lemma CompleteKeeps(c: Config, s: State, i: nat, goto: Main)
    requires Inv(c, s) && i < c.threads && s.threads[i].executing && s.threads[i].done
    requires s.main in {Found(i), Waited(i), Polled(i), Handle(i), Graced(i)} && Plain(goto)
    requires MainOk(c, s.(threads := s.threads[i := s.threads[i].(executing := false)], main := goto))
    ensures Inv(c, Complete(s, i, goto))
  {
    assert ThreadOk(c, s.main, s.threads[i], i);
    ExecutingPositive(s.threads, i);
    var t := s.threads[i].(executing := false);
    ExecutingUpdate(s.threads, i, t);
    var s1 := Complete(s, i, goto);
    hide Records, MainOk;
    forall j | 0 <= j < c.threads
      ensures ThreadOk(c, goto, s1.threads[j], j)
    {
      assert ThreadOk(c, s.main, s.threads[j], j);
    }
    CompleteRecords(c, s, i, goto, s1);
  }

  lemma CompleteRecords(c: Config, s: State, i: nat, goto: Main, s1: State)
    requires i < |s.threads| && s.threads[i].executing && s.threads[i].ran == s.threads[i].index && Records(c, s)
    requires Flushed(s.main) == Flushed(goto) == 0 && !s.main.Finished? && !goto.Finished?
    requires s1 == s.(threads := s.threads[i := s.threads[i].(executing := false)], running := s.running - 1,
                      main := goto, reported := if s.colliding then s.reported else s.reported + [s.threads[i].index],
                      outcomes := if s.colliding then s.outcomes else s.outcomes + [s.threads[i].ran])
    ensures Records(c, s1)
  {
    if !s.colliding {
      CompleteAccounted(s, i);
    }
  }

  lemma GiveAccounted(s: State, i: nat, t: Thread)
    requires i < |s.threads| && !s.threads[i].executing && t.executing && t.index == s.next && Accounted(s)
      && Flushed(s.main) == 0
    ensures forall m :: Flushed(m) == 0 ==> Accounted(s.(threads := s.threads[i := t], next := s.next + 1, main := m))
  {
    var s1 := s.(threads := s.threads[i := t], next := s.next + 1);
    forall k: nat | k < s1.next && k !in s1.reported
      ensures Pending(s1.threads, k)
    {
      if k == s.next {
        assert s1.threads[i].index == k;
      } else {
        var j :| 0 <= j < |s.threads| && s.threads[j].executing && s.threads[j].index == k;
        assert s1.threads[j] == s.threads[j];
      }
    }
  }

  lemma GiveKeeps(c: Config, s: State, timely: bool)
    requires Inv(c, s) && s.main.Give?
    ensures Inv(c, MainStep(c, s, timely))
  {
    var i := s.main.i;
    assert ThreadOk(c, s.main, s.threads[i], i);
    var s1 := MainStep(c, s, timely);
    var t := s1.threads[i];
    hide Records;
    ExecutingUpdate(s.threads, i, t);
    forall j | 0 <= j < c.threads
      ensures ThreadOk(c, s1.main, s1.threads[j], j)
    {
      assert ThreadOk(c, s.main, s.threads[j], j);
    }
    GiveRecords(c, s, i, t, s1);
  }

  lemma GiveRecords(c: Config, s: State, i: nat, t: Thread, s1: State)
    requires i < |s.threads| && !s.threads[i].executing && t.executing && t.index == s.next && Records(c, s)
      && s.main.Give?
    requires s1.threads == s.threads[i := t] && s1.next == s.next + 1 && s1.colliding == s.colliding
      && s1.reported == s.reported && s1.outcomes == s.outcomes && Flushed(s1.main) == 0 && !s1.main.Finished?
    ensures Records(c, s1)
  {
    if !s.colliding {
      GiveAccounted(s, i, t);
      assert Accounted(s.(threads := s.threads[i := t], next := s.next + 1, main := s1.main));
    }
  }

  /** A step of main that changes one thread but not what it executes. */
  lemma TouchKeeps(c: Config, s: State, i: nat, t: Thread, m: Main, ts: seq<Thread>)
    requires Inv(c, s) && i < c.threads && t.executing == s.threads[i].executing && t.index == s.threads[i].index
    requires Flushed(m) == Flushed(s.main) && s.main != Finished && m != Finished && ts == s.threads[i := t]
    requires forall j :: 0 <= j < c.threads ==> ThreadOk(c, m, ts[j], j)
    requires MainOk(c, s.(threads := ts, main := m))
    ensures Inv(c, s.(threads := ts, main := m))
  {
    var s1 := s.(threads := ts);
    WorkerKeepsRecords(c, s, s1, i, t);
    assert Records(c, s1.(main := m)) by {
      if !s.colliding {
        forall k: nat | k < s.next && k !in s.reported
          ensures Pending(s1.threads, k)
        {
        }
      }
    }
  }

  /** When the first pass is over, nothing executes that has not been reported. */
  lemma PassReported(c: Config, s: State)
    requires Inv(c, s) && !s.colliding && s.main != Finished && s.next == c.calls
    requires s.running == 0 || (s.main.Flush? && s.main.j >= c.threads)
    ensures AllReported(c, s.reported)
  {
    NoneExecuting(s.threads);
    assert forall i :: 0 <= i < |s.threads| && s.threads[i].executing ==> s.threads[i].index in s.reported;
  }

  lemma EndKeeps(c: Config, s: State)
    requires Inv(c, s) && (s.main.EndOfPass? || s.main.Grace? || s.main.Flush?) && s.next == c.calls
    requires s.colliding || s.running == 0 || (s.main.Flush? && s.main.j >= c.threads)
    ensures Inv(c, AfterEnd(c, s))
  {
    if !s.colliding {
      PassReported(c, s);
    }
    var s1 := AfterEnd(c, s);
    forall j | 0 <= j < c.threads
      ensures ThreadOk(c, s1.main, s1.threads[j], j)
    {
      assert ThreadOk(c, s.main, s.threads[j], j);
    }
  }

  lemma FlushKeeps(c: Config, s: State, timely: bool)
    requires Inv(c, s) && s.main.Flush?
    ensures Inv(c, MainStep(c, s, timely))
  {
    var j := s.main.j;
    if j >= c.threads {
      EndKeeps(c, s);
    } else {
      var s1 := MainStep(c, s, timely);
      hide Records;
      forall i | 0 <= i < c.threads
        ensures ThreadOk(c, s1.main, s1.threads[i], i)
      {
        assert ThreadOk(c, s.main, s.threads[i], i);
      }
      FlushRecords(c, s, j, s1);
    }
  }

  lemma FlushRecords(c: Config, s: State, j: nat, s1: State)
    requires j < |s.threads| && Records(c, s) && !s.colliding && s.main == Flush(j) && s1.main == Flush(j + 1)
    requires if s.threads[j].executing
      then s1 == s.(reported := s.reported + [s.threads[j].index], outcomes := s.outcomes + [NOTHING], main := s1.main)
      else s1 == s.(main := s1.main)
    ensures Records(c, s1)
  {
    if s.threads[j].executing {
      assert s1.reported[|s.reported|] == s.threads[j].index;
    }
  }

  /** A step that resets or sets an event of thread i, or creates it. */
  lemma EventKeeps(c: Config, s: State, i: nat, timely: bool)
    requires Inv(c, s) && i < c.threads
    requires s.main in {Take(i), Direct(i), Executed(i)}
      || (s.main == Scan(i) && s.next < c.calls && !s.threads[i].created)
    ensures Inv(c, MainStep(c, s, timely))
  {
    hide Records;
    var s1 := MainStep(c, s, timely);
    assert ThreadOk(c, s.main, s.threads[i], i);
    forall j | 0 <= j < c.threads
      ensures ThreadOk(c, s1.main, s1.threads[j], j)
    {
      assert ThreadOk(c, s.main, s.threads[j], j);
    }
    TouchKeeps(c, s, i, s1.threads[i], s1.main, s1.threads);
  }

  lemma ScanKeeps(c: Config, s: State, timely: bool)
    requires Inv(c, s) && s.main.Scan?
    ensures Inv(c, MainStep(c, s, timely))
  {
    hide Records;
    var i := s.main.i;
    if s.next < c.calls && i < c.threads {
      assert ThreadOk(c, s.main, s.threads[i], i);
      if !s.threads[i].created {
        EventKeeps(c, s, i, timely);
      } else {
        MoveKeeps(c, s, if s.threads[i].done then Found(i) else Scan(i + 1));
      }
    } else {
      MoveKeeps(c, s, if c.calls <= s.next then EndOfPass else OutOfThreads);
    }
  }

  lemma PollKeeps(c: Config, s: State, timely: bool)
    requires Inv(c, s) && (s.main.Wait? || s.main.Poll? || s.main.Grace? || s.main.EndOfPass?)
    ensures Inv(c, MainStep(c, s, timely))
  {
    hide Records, ThreadOk;
    NonThreadedQuiet(c, s);
    var s1 := MainStep(c, s, timely);
    if s.main.EndOfPass? && (s.colliding || s.running <= 0) {
      EndKeeps(c, s);
    } else if s.main.Grace? && s.main.j >= c.threads && s.running <= 0 {
      EndKeeps(c, s);
    } else if s1.main.Flush? {
      StartFlush(c, s);
    } else {
      MoveKeeps(c, s, s1.main);
    }
  }

  lemma NonThreadedQuiet(c: Config, s: State)
    requires Inv(c, s) && Plain(s.main)
    ensures s.running > 0 ==> c.threaded
    ensures s.running >= 0
  {
    SomeExecuting(s.threads);
    assert forall i :: 0 <= i < |s.threads| ==> ThreadOk(c, s.main, s.threads[i], i);
    assert !c.threaded ==> forall i :: 0 <= i < |s.threads| ==> !s.threads[i].executing;
  }

  lemma {:induction false} SomeExecuting(ts: seq<Thread>)
    ensures Executing(ts) > 0 ==> exists i :: 0 <= i < |ts| && ts[i].executing
  {
    if ts != [] && !ts[0].executing {
      SomeExecuting(ts[1..]);
      if Executing(ts) > 0 {
        var i :| 0 <= i < |ts| - 1 && ts[1..][i].executing;
        assert ts[i + 1].executing;
      }
    }
  }

  lemma StartFlush(c: Config, s: State)
    requires Inv(c, s) && s.main.Grace? && s.running > 0
    ensures Inv(c, s.(main := Flush(0)))
  {
  }

  /** Every step of main keeps the invariant. */
  lemma MainKeeps(c: Config, s: State, timely: bool)
    requires Inv(c, s)
    ensures Inv(c, MainStep(c, s, timely))
  {
    hide Records, ThreadOk;
    match s.main
    case Scan(_) => ScanKeeps(c, s, timely);
    case Found(i) =>
      if s.threads[i].executing {
        CompleteKeeps(c, s, i, Take(i));
      } else {
        MoveKeeps(c, s, Take(i));
      }
    case Take(i) => EventKeeps(c, s, i, timely);
    case Give(_) => GiveKeeps(c, s, timely);
    case Wait(_) => PollKeeps(c, s, timely);
    case Waited(i) => CompleteKeeps(c, s, i, Poll(0));
    case Poll(_) => PollKeeps(c, s, timely);
    case Polled(j) => CompleteKeeps(c, s, j, Poll(j + 1));
    case Direct(i) => EventKeeps(c, s, i, timely);
    case Executed(i) => EventKeeps(c, s, i, timely);
    case Handle(i) => CompleteKeeps(c, s, i, Advance(c, s));
    case EndOfPass => PollKeeps(c, s, timely);
    case Grace(_) => PollKeeps(c, s, timely);
    case Graced(j) => CompleteKeeps(c, s, j, Grace(j + 1));
    case Flush(_) => FlushKeeps(c, s, timely);
    case _ =>
  }

  lemma InitHolds(c: Config)
    requires c.collide ==> c.threaded
    ensures Inv(c, Init(c))
  {
    NothingExecutes(c.threads);
  }

  lemma {:induction false} NothingExecutes(n: nat)
    ensures Executing(seq(n, _ => Thread(false, false, false, false, 0, Idle, NOTHING))) == 0
  {
    if n > 0 {
      NothingExecutes(n - 1);
      var none := Thread(false, false, false, false, 0, Idle, NOTHING);
      assert seq(n, _ => none)[1..] == seq(n - 1, _ => none);
    }
  }

  /** The invariant holds in every state of every interleaving. */
  lemma {:induction false} Always(c: Config, run: seq<State>, k: nat)
    requires Run(c, run) && k < |run| && (c.collide ==> c.threaded)
    ensures Inv(c, run[k])
  {
    if k == 0 {
      InitHolds(c);
    } else {
      Always(c, run, k - 1);
      var s, s' := run[k - 1], run[k];
      assert Next(c, s, run[k - 1 + 1]);
      if timely :| s' == MainStep(c, s, timely) {
        MainKeeps(c, s, timely);
      } else {
        var i: nat :| s' == WorkerStep(c, s, i);
        WorkerKeeps(c, s, i);
      }
    }
  }

  /** No check ever fails, and `running` counts the executing threads. */
  lemma NeverBad(c: Config, run: seq<State>, k: nat)
    requires Run(c, run) && k < |run| && (c.collide ==> c.threaded)
    ensures run[k].main != Bad && run[k].running == Executing(run[k].threads)
  {
    Always(c, run, k);
  }

  /** No call of the first pass is ever reported twice, and once that pass is over every call of the
      program has exactly one record; the colliding pass adds none. A record holds the outcome of its own
      call; one without outcome belongs to a call that is still being executed when the first pass ends. */
  lemma OneRecordEach(c: Config, run: seq<State>, k: nat)
    requires Run(c, run) && k < |run| && (c.collide ==> c.threaded)
    ensures forall a, b :: 0 <= a < b < |run[k].reported| ==> run[k].reported[a] != run[k].reported[b]
    ensures run[k].colliding || run[k].main == Finished ==>
      forall i: nat :: i in run[k].reported <==> i < c.calls
    ensures |run[k].outcomes| == |run[k].reported|
    ensures forall a :: 0 <= a < |run[k].reported| ==>
      run[k].outcomes[a] == run[k].reported[a] || run[k].outcomes[a] == NOTHING
    ensures !run[k].colliding ==> forall a :: 0 <= a < |run[k].reported| ==>
      (run[k].outcomes[a] == NOTHING <==> Pending(run[k].threads, run[k].reported[a]))
  {
    Always(c, run, k);
  }

  lemma {:induction false} AllExecuting(ts: seq<Thread>)
    requires Busy(ts, |ts|)
    ensures Executing(ts) == |ts|
  {
    if ts != [] {
      AllExecuting(ts[1..]);
    }
  }

  /** The process exits for lack of threads only when every thread is executing a call. */
  lemma ExitsWhenFull(c: Config, run: seq<State>, k: nat)
    requires Run(c, run) && k < |run| && (c.collide ==> c.threaded) && run[k].main == OutOfThreads
    ensures run[k].running == c.threads == |run[k].threads| && run[k].next < c.calls
    ensures forall i :: 0 <= i < c.threads ==> run[k].threads[i].executing
  {
    Always(c, run, k);
    AllExecuting(run[k].threads);
  }

  // ---- what is scheduled ----

  function Upto(n: nat): (s: seq<nat>)
    ensures |s| == n && forall j :: 0 <= j < n ==> s[j] == j
  {
    seq(n, j => j)
  }

  /** The calls handed to threads in the course of a run, in order. */
  ghost function Scheduled(run: seq<State>): seq<nat> {
    if |run| <= 1 then []
    else
      var s, s' := run[|run| - 2], run[|run| - 1];
      Scheduled(run[..|run| - 1]) +
      if s.main.Give? && !s'.main.Give? && s.main.i < |s'.threads| then [s'.threads[s.main.i].index] else []
  }

  /** A step hands over the next call, or starts the second pass when all calls of the first have been, or
      leaves the position in the program alone. */
  predicate Moves(c: Config, s: State, s': State) {
    if s.main.Give? && !s'.main.Give? then
      && s'.next == s.next + 1 && s'.colliding == s.colliding
      && s.main.i < |s'.threads| && s'.threads[s.main.i].index == s.next
    else
      || (s'.next == s.next && s'.colliding == s.colliding)
      || (s'.next == 0 && s'.colliding && !s.colliding && s.next == c.calls)
  }

  lemma MainMoves(c: Config, s: State, timely: bool)
    requires |s.threads| == c.threads && MainOk(c, s) && (s.main.Give? ==> !s.threads[s.main.i].ready)
    ensures Moves(c, s, MainStep(c, s, timely))
  {
    hide Busy;
  }

  lemma StepMoves(c: Config, s: State, s': State)
    requires Inv(c, s) && Next(c, s, s')
    ensures Moves(c, s, s')
  {
    if timely :| s' == MainStep(c, s, timely) {
      if s.main.Give? {
        assert ThreadOk(c, s.main, s.threads[s.main.i], s.main.i);
      }
      hide Moves, MainStep, Records, ThreadOk;
      MainMoves(c, s, timely);
    } else {
      hide Records, MainOk;
      var i: nat :| s' == WorkerStep(c, s, i);
      if i < c.threads {
        assert ThreadOk(c, s.main, s.threads[i], i);
      }
    }
  }

  ghost function Position(c: Config, s: State): seq<nat> { (if s.colliding then Upto(c.calls) else []) + Upto(s.next) }

  lemma {:induction false} ScheduledUpto(c: Config, run: seq<State>, k: nat)
    requires Run(c, run) && k < |run| && (c.collide ==> c.threaded)
    ensures Scheduled(run[..k + 1]) == Position(c, run[k])
  {
    hide Inv, Next, Upto, Position;
    if k > 0 {
      ScheduledUpto(c, run, k - 1);
      Always(c, run, k - 1);
      var s, s', pre := run[k - 1], run[k], run[..k + 1];
      assert Next(c, run[k - 1], run[k - 1 + 1]);
      StepMoves(c, s, s');
      assert pre[..|pre| - 1] == run[..k - 1 + 1] && pre[|pre| - 2] == s && pre[|pre| - 1] == s';
      PositionMoves(c, s, s');
    } else {
      PositionMoves(c, run[0], run[0]);
    }
  }

  lemma PositionMoves(c: Config, s: State, s': State)
    ensures !s.colliding && s.next == 0 ==> Position(c, s) == []
    ensures s'.next == s.next + 1 && s'.colliding == s.colliding ==> Position(c, s') == Position(c, s) + [s.next]
    ensures s'.next == s.next && s'.colliding == s.colliding ==> Position(c, s') == Position(c, s)
    ensures s'.next == 0 && s'.colliding && !s.colliding && s.next == c.calls ==> Position(c, s') == Position(c, s)
  {
  }

  /** When a run has finished, every call has been handed to a thread once per pass, in order, and there has been
      a second pass exactly if colliding was asked for. */
  lemma EveryPassComplete(c: Config, run: seq<State>)
    requires Run(c, run) && (c.collide ==> c.threaded) && run[|run| - 1].main == Finished
    ensures Scheduled(run) == if c.collide then Upto(c.calls) + Upto(c.calls) else Upto(c.calls)
  {
    var k := |run| - 1;
    Always(c, run, k);
    ScheduledUpto(c, run, k);
    assert run[..k + 1] == run;
  }

  // ---- completions ----

  /** Main looks for completed calls from thread j or an earlier one on, or that thread is not executing. */
  predicate Due(c: Config, s: State, j: nat)
    requires |s.threads| == c.threads && j < c.threads
  {
    || !s.threads[j].executing
    || (s.threads[j].done && s.main.Poll? && s.main.j <= j) || (s.threads[j].done && s.main.Polled? && s.main.j <= j)
    || (s.threads[j].done && s.main.Grace? && s.main.j <= j) || (s.threads[j].done && s.main.Graced? && s.main.j <= j)
  }

  predicate Looking(m: Main) { m.Poll? || m.Polled? || m.Grace? || m.Graced? }

  lemma MainSweeps(c: Config, s: State, timely: bool, j: nat)
    requires Inv(c, s) && j < c.threads && Looking(s.main) && Due(c, s, j)
    ensures var s' := MainStep(c, s, timely); |s'.threads| == c.threads && Due(c, s', j)
  {
    hide Records;
    if s.main.Polled? || s.main.Graced? {
      assert ThreadOk(c, s.main, s.threads[s.main.j], s.main.j);
      ExecutingPositive(s.threads, s.main.j);
    }
  }

  lemma WorkerSweeps(c: Config, s: State, i: nat, j: nat)
    requires Inv(c, s) && j < c.threads && Looking(s.main) && Due(c, s, j)
    ensures var s' := WorkerStep(c, s, i); |s'.threads| == c.threads && Due(c, s', j)
  {
    hide Records, MainOk;
    assert ThreadOk(c, s.main, s.threads[j], j);
    if i < c.threads {
      assert ThreadOk(c, s.main, s.threads[i], i);
    }
  }

  lemma StepSweeps(c: Config, s: State, s': State, j: nat)
    requires Inv(c, s) && Next(c, s, s') && j < c.threads && Looking(s.main) && Due(c, s, j)
    ensures |s'.threads| == c.threads && Due(c, s', j)
  {
    hide Due, ThreadOk, Records, MainOk, MainStep, WorkerStep;
    if timely :| s' == MainStep(c, s, timely) {
      MainSweeps(c, s, timely, j);
    } else {
      var i: nat :| s' == WorkerStep(c, s, i);
      WorkerSweeps(c, s, i, j);
    }
  }

  /** A call that is done when main starts to look for completed calls, while it waits in the middle of the
      program or at its end, is completed before main does anything else. */
  lemma {:induction false} SweepCompletes(c: Config, run: seq<State>, a: nat, b: nat, j: nat)
    requires Run(c, run) && (c.collide ==> c.threaded) && a <= b < |run| && j < c.threads
    requires run[a].main in {Poll(0), Grace(0)} && |run[a].threads| == c.threads && run[a].threads[j].done
    requires forall k :: a <= k < b ==> Looking(run[k].main)
    ensures |run[b].threads| == c.threads && Due(c, run[b], j)
    ensures !Looking(run[b].main) ==> !run[b].threads[j].executing
  {
    hide Inv, Next, Due;
    if a < b {
      SweepCompletes(c, run, a, b - 1, j);
      Always(c, run, b - 1);
      assert Next(c, run[b - 1], run[b - 1 + 1]);
      StepSweeps(c, run[b - 1], run[b], j);
    } else {
      StartSweep(c, run[a], j);
    }
    Swept(c, run[b], j);
  }

  lemma StepWaits(c: Config, s: State, s': State)
    requires Inv(c, s) && Next(c, s, s') && (s.main.Wait? || s.main.Waited?)
    ensures s'.main.Wait? || s'.main.Waited? || s'.main == Poll(0)
  {
    hide Records;
    if timely :| s' == MainStep(c, s, timely) {
      if s.main.Waited? {
        assert ThreadOk(c, s.main, s.threads[s.main.i], s.main.i);
        ExecutingPositive(s.threads, s.main.i);
      }
      hide ThreadOk, Busy;
    } else {
      hide MainOk;
      var i: nat :| s' == WorkerStep(c, s, i);
      if i < c.threads {
        assert ThreadOk(c, s.main, s.threads[i], i);
      }
    }
  }

  lemma HandsOver(c: Config, s: State, s': State)
    requires Inv(c, s) && Next(c, s, s') && s.main.Give? && !s'.main.Give? && c.threaded
    requires !s.colliding || s.next % 2 == 0
    ensures s'.main.Wait?
  {
    hide Records;
    if timely :| s' == MainStep(c, s, timely) {
      assert ThreadOk(c, s.main, s.threads[s.main.i], s.main.i);
    } else {
      hide MainOk;
      var i: nat :| s' == WorkerStep(c, s, i);
    }
  }

  /** With threads, main waits for every call of the first pass and for every other call of the second: after
      handing over such a call it only waits for it until it looks for completed calls. */
  lemma {:induction false} WaitsForCall(c: Config, run: seq<State>, a: nat, b: nat)
    requires Run(c, run) && (c.collide ==> c.threaded) && c.threaded && a < b < |run|
    requires run[a].main.Give? && !run[a + 1].main.Give? && (!run[a].colliding || run[a].next % 2 == 0)
    requires forall k :: a < k <= b ==> run[k].main != Poll(0)
    ensures run[b].main.Wait? || run[b].main.Waited?
  {
    hide Inv, Next;
    Always(c, run, b - 1);
    assert Next(c, run[b - 1], run[b - 1 + 1]);
    if b == a + 1 {
      HandsOver(c, run[a], run[b]);
    } else {
      WaitsForCall(c, run, a, b - 1);
      StepWaits(c, run[b - 1], run[b]);
    }
  }

  lemma StartSweep(c: Config, s: State, j: nat)
    requires |s.threads| == c.threads && j < c.threads && s.main in {Poll(0), Grace(0)} && s.threads[j].done
    ensures Due(c, s, j)
  {
  }

  lemma Swept(c: Config, s: State, j: nat)
    requires |s.threads| == c.threads && j < c.threads && Due(c, s, j)
    ensures !Looking(s.main) ==> !s.threads[j].executing
  {
  }
}
