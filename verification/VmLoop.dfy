/** The manager's loop over virtual machines: free instances are given to fuzzing runs or, several at
    a time, to reproductions of crashes; finished runs and reproductions give them back. */
module VmLoop {

  /** A crash; `id` tells crashes with the same title apart. */
  datatype Crash = Crash(title: string, id: nat)

  /** A reproduction in progress and the instances it holds. */
  datatype Repro = Repro(crash: Crash, vms: seq<nat>)

  /** What the loop waits for. A finished run may come with a crash worth reproducing. */
  datatype Event =
    | StopIssued
    | RunDone(idx: nat, crashes: set<Crash>)
    | ReproDone(which: nat)
    | ShutdownRequested
    | HubRepro(crash: Crash)

  function Held(active: seq<Repro>): multiset<nat> {
    if active == [] then multiset{} else multiset(active[0].vms) + Held(active[1..])
  }

  function Titles(queue: seq<Crash>, active: seq<Repro>): multiset<string> {
    QueueTitles(queue) + ActiveTitles(active)
  }

  function QueueTitles(queue: seq<Crash>): multiset<string> {
    if queue == [] then multiset{} else multiset{queue[0].title} + QueueTitles(queue[1..])
  }

  function ActiveTitles(active: seq<Repro>): multiset<string> {
    if active == [] then multiset{} else multiset{active[0].crash.title} + ActiveTitles(active[1..])
  }

  /** All instances, each once. */
  function Everyone(n: nat): multiset<nat> {
    if n == 0 then multiset{} else Everyone(n - 1) + multiset{n - 1}
  }

  // ---- bookkeeping of sums ----

  lemma {:induction false} HeldSplit(a: seq<Repro>, b: seq<Repro>)
    ensures Held(a + b) == Held(a) + Held(b) && ActiveTitles(a + b) == ActiveTitles(a) + ActiveTitles(b)
  {
    if a == [] {
      assert a + b == b;
    } else {
      assert (a + b)[0] == a[0] && (a + b)[1..] == a[1..] + b;
      HeldSplit(a[1..], b);
    }
  }

  lemma {:induction false} QueueSplit(a: seq<Crash>, b: seq<Crash>)
    ensures QueueTitles(a + b) == QueueTitles(a) + QueueTitles(b)
  {
    if a == [] {
      assert a + b == b;
    } else {
      assert (a + b)[0] == a[0] && (a + b)[1..] == a[1..] + b;
      QueueSplit(a[1..], b);
    }
  }

  lemma HeldOne(r: Repro)
    ensures Held([r]) == multiset(r.vms) && ActiveTitles([r]) == multiset{r.crash.title}
  {
  }

  lemma QueueOne(c: Crash)
    ensures QueueTitles([c]) == multiset{c.title}
  {
  }

  lemma HeldWithout(active: seq<Repro>, j: nat)
    requires j < |active|
    ensures Held(active) == Held(active[..j] + active[j + 1..]) + multiset(active[j].vms)
    ensures ActiveTitles(active) == ActiveTitles(active[..j] + active[j + 1..]) + multiset{active[j].crash.title}
  {
    hide Held, ActiveTitles;
    var pre, mid, post := active[..j], [active[j]], active[j + 1..];
    assert active == pre + (mid + post);
    HeldSplit(pre, mid + post);
    HeldSplit(mid, post);
    HeldSplit(pre, post);
    HeldOne(active[j]);
  }

  lemma {:induction false} EveryoneCounts(n: nat)
    ensures |Everyone(n)| == n && forall i: nat :: Everyone(n)[i] == if i < n then 1 else 0
  {
    if n > 0 {
      EveryoneCounts(n - 1);
    }
  }

  lemma {:induction false} HeldSize(active: seq<Repro>, per: nat)
    requires forall r :: r in active ==> |r.vms| == per
    ensures |Held(active)| == per * |active|
  {
    if active != [] {
      HeldSize(active[1..], per);
      assert active[0] in active;
      assert |Held(active)| == |multiset(active[0].vms)| + |Held(active[1..])|;
      MulStep(per, |active|);
    }
  }

  lemma MulStep(per: nat, n: nat)
    requires n > 0
    ensures per * n == per * (n - 1) + per
  {
  }

  // ---- the two central facts ----

  /** Free instances, running instances and instances held by reproductions are all instances, each
      exactly once. */
  ghost predicate Partition(instances: seq<nat>, running: set<nat>, active: seq<Repro>, n: nat) {
    multiset(instances) + multiset(running) + Held(active) == Everyone(n)
  }

  /** The titles being reproduced are those queued or in progress, which are all different. */
  ghost predicate TitlesExact(queue: seq<Crash>, active: seq<Repro>, reproducing: set<string>) {
    Titles(queue, active) == multiset(reproducing)
  }

  lemma NothingStarted(instances: seq<nat>, n: nat)
    requires multiset(instances) == Everyone(n)
    ensures Partition(instances, {}, [], n) && TitlesExact([], [], {})
  {
  }

  lemma RunStarts(instances: seq<nat>, running: set<nat>, active: seq<Repro>, n: nat)
    requires instances != [] && Partition(instances, running, active, n)
    ensures Partition(instances[..|instances| - 1], running + {instances[|instances| - 1]}, active, n)
  {
    hide Held, Everyone;
    var last := |instances| - 1;
    var idx := instances[last];
    FreeIsIdle(instances, running, active, n, idx);
    assert instances == instances[..last] + [idx];
    assert multiset(running + {idx}) == multiset(running) + multiset{idx};
  }

  lemma ReproStarts(instances: seq<nat>, running: set<nat>, active: seq<Repro>, n: nat, k: nat, crash: Crash)
    requires k <= |instances| && Partition(instances, running, active, n)
    ensures Partition(instances[..k], running, active + [Repro(crash, instances[k..])], n)
  {
    hide Everyone;
    var r := Repro(crash, instances[k..]);
    HeldSplit(active, [r]);
    HeldOne(r);
    hide Held;
    assert instances == instances[..k] + instances[k..];
    assert multiset(instances) == multiset(instances[..k]) + multiset(instances[k..]);
  }

  lemma RunEnds(instances: seq<nat>, running: set<nat>, active: seq<Repro>, n: nat, idx: nat)
    requires idx in running && Partition(instances, running, active, n)
    ensures Partition(instances + [idx], running - {idx}, active, n)
  {
    hide Held, Everyone;
    assert multiset(running) == multiset(running - {idx}) + multiset{idx};
    assert multiset(instances + [idx]) == multiset(instances) + multiset{idx};
  }

  lemma ReproEnds(instances: seq<nat>, running: set<nat>, active: seq<Repro>, n: nat, j: nat)
    requires j < |active| && Partition(instances, running, active, n)
    ensures Partition(instances + active[j].vms, running, active[..j] + active[j + 1..], n)
  {
    hide Everyone;
    HeldWithout(active, j);
    hide Held;
    assert multiset(instances + active[j].vms) == multiset(instances) + multiset(active[j].vms);
  }

  lemma TitleQueued(queue: seq<Crash>, active: seq<Repro>, reproducing: set<string>, c: Crash)
    requires TitlesExact(queue, active, reproducing) && c.title !in reproducing
    ensures TitlesExact(queue + [c], active, reproducing + {c.title})
  {
    QueueSplit(queue, [c]);
    QueueOne(c);
    hide QueueTitles, ActiveTitles;
    assert multiset(reproducing + {c.title}) == multiset(reproducing) + multiset{c.title};
  }

  lemma TitleStarts(queue: seq<Crash>, active: seq<Repro>, reproducing: set<string>, vms: seq<nat>)
    requires queue != [] && TitlesExact(queue, active, reproducing)
    ensures TitlesExact(queue[..|queue| - 1], active + [Repro(queue[|queue| - 1], vms)], reproducing)
  {
    var last := |queue| - 1;
    var r := Repro(queue[last], vms);
    assert queue == queue[..last] + [queue[last]];
    QueueSplit(queue[..last], [queue[last]]);
    QueueOne(queue[last]);
    HeldSplit(active, [r]);
    HeldOne(r);
  }

  lemma TitleEnds(queue: seq<Crash>, active: seq<Repro>, reproducing: set<string>, j: nat)
    requires j < |active| && TitlesExact(queue, active, reproducing)
    ensures TitlesExact(queue, active[..j] + active[j + 1..], reproducing - {active[j].crash.title})
  {
    HeldWithout(active, j);
    hide QueueTitles, ActiveTitles;
    RemoveTitle(Titles(queue, active[..j] + active[j + 1..]), reproducing, active[j].crash.title);
  }

  lemma RemoveTitle(rest: multiset<string>, reproducing: set<string>, t: string)
    requires rest + multiset{t} == multiset(reproducing)
    ensures rest == multiset(reproducing - {t})
  {
    assert t in multiset(reproducing) by { assert (rest + multiset{t})[t] == rest[t] + 1; }
    assert multiset(reproducing) == multiset(reproducing - {t}) + multiset{t};
    assert rest == (rest + multiset{t}) - multiset{t};
    assert multiset(reproducing - {t}) == (multiset(reproducing - {t}) + multiset{t}) - multiset{t};
  }

  /** The instances from the last to the first. */
  method AllInstances(count: nat) returns (free: seq<nat>)
    ensures multiset(free) == Everyone(count)
    ensures |free| == count && forall i :: 0 <= i < count ==> free[i] == count - i - 1
  {
    free := [];
    for i := 0 to count
      invariant |free| == i && multiset(free) + Everyone(count - i) == Everyone(count)
      invariant forall j :: 0 <= j < i ==> free[j] == count - j - 1
    {
      assert Everyone(count - i) == Everyone(count - i - 1) + multiset{count - i - 1};
      free := free + [count - i - 1];
    }
  }

  class Loop {
    const vmCount: nat
    const per: nat
    var instances: seq<nat>
    var pending: set<Crash>
    var reproducing: set<string>
    var reproInstances: nat
    var queue: seq<Crash>
    var stopPending: bool
    var shutdown: bool
    /** Instances in the hands of fuzzing runs, and reproductions in progress. */
    var running: set<nat>
    var active: seq<Repro>
    /** All crashes that arrived, and those that needed no reproduction or have had one. */
    ghost var seen: set<Crash>
    ghost var settled: set<Crash>

    /** Free, running and reproducing instances are all instances, each once; the counter of
        reproducing instances and the set of titles are exact; every crash is somewhere. */
    ghost predicate Valid()
      reads this
    {
      && per <= 4 && per <= vmCount && (vmCount > 0 ==> per > 0)
      && Partition(instances, running, active, vmCount)
      && (forall r :: r in active ==> |r.vms| == per)
      && reproInstances == per * |active| <= vmCount
      && TitlesExact(queue, active, reproducing)
      && seen == Outstanding(pending, queue, active) + settled
    }

    constructor (count: nat)
      ensures Valid() && vmCount == count && per == (if count < 4 then count else 4) && !shutdown && !stopPending
      ensures running == {} && active == [] && queue == [] && pending == {} && seen == {} && settled == {}
      ensures |instances| == count && forall i :: 0 <= i < count ==> instances[i] == count - i - 1
    {
      vmCount := count;
      per := if 4 > count then count else 4;
      pending, reproducing, reproInstances, queue, stopPending, shutdown, running, active := {}, {}, 0, [], false,
        false, {}, [];
      seen, settled := {}, {};
      var free := AllInstances(count);
      instances := free;
      hide Partition, TitlesExact;
      NothingStarted(free, count);
    }

    predicate CanRepro(triaged: bool)
      reads this
    {
      triaged && |queue| != 0 && reproInstances + per <= vmCount
    }

    /** Moves pending crashes whose title is not being reproduced to the queue. */
    method Promote(need: Crash -> bool)
      requires Valid()
      modifies this`pending, this`reproducing, this`queue, this`settled
      ensures Valid() && pending <= old(pending) && old(queue) <= queue
      ensures forall c :: c in pending ==> c.title in reproducing
      ensures forall c :: c in old(pending) && c.title in old(reproducing) ==> c in pending
      ensures settled == old(settled) + set c | c in old(pending) && c !in pending && !need(c)
      ensures forall c :: c in old(pending) && c !in pending && need(c) ==> c in queue[|old(queue)|..]
      ensures forall c :: c in queue[|old(queue)|..] ==> c in old(pending) && need(c)
    {
      hide Partition, TitlesExact, Outstanding;
      var todo := pending;
      while todo != {}
        invariant Valid() && todo <= pending <= old(pending) && old(queue) <= queue && old(reproducing) <= reproducing
        invariant forall c :: c in old(pending) && c.title in old(reproducing) ==> c in pending
        invariant settled == old(settled) + set c | c in old(pending) && c !in pending && !need(c)
        invariant forall c :: c in pending && c !in todo ==> c.title in reproducing
        invariant forall c :: c in old(pending) && c !in pending && need(c) ==> c in queue[|old(queue)|..]
        invariant forall c :: c in queue[|old(queue)|..] ==> c in old(pending) && need(c)
        decreases todo
      {
        var c :| c in todo;
        todo := todo - {c};
        if c.title !in reproducing {
          Promoted(pending, queue, active, c);
          pending := pending - {c};
          if need(c) {
            TitleQueued(queue, active, reproducing, c);
            reproducing := reproducing + {c.title};
            assert (queue + [c])[|old(queue)|..] == queue[|old(queue)|..] + [c];
            queue := queue + [c];
          } else {
            settled := settled + {c};
          }
        }
      }
    }

    /** Starts as many reproductions as queue and free instances allow, each on the last instances. */
    method StartRepros(triaged: bool)
      requires Valid()
      modifies this`instances, this`queue, this`reproInstances, this`active
      ensures Valid() && !(CanRepro(triaged) && |instances| >= per)
      ensures Moved(old(queue), queue, old(active), active) && old(active) <= active && instances <= old(instances)
      ensures !triaged ==> active == old(active)
    {
      hide Partition, TitlesExact, Outstanding, Moved;
      MovedNothing(queue, active);
      while CanRepro(triaged) && |instances| >= per
        invariant Valid() && Moved(old(queue), queue, old(active), active) && old(active) <= active
        invariant instances <= old(instances)
        invariant !triaged ==> active == old(active)
        decreases |queue|
      {
        var last, n := |queue| - 1, |instances| - per;
        var crash := queue[last];
        var r := Repro(crash, instances[n..]);
        TitleStarts(queue, active, reproducing, instances[n..]);
        ReproStarts(instances, running, active, vmCount, n, crash);
        MulStep(per, |active| + 1);
        MovedOne(pending, queue, active, instances[n..]);
        MovedMore(old(queue), queue, old(active), active, instances[n..]);
        queue := queue[..last];
        instances := instances[..n];
        reproInstances := reproInstances + per;
        active := active + [r];
      }
    }

    /** Starts fuzzing on the free instances, unless they are wanted for a reproduction. */
    method StartInstances(triaged: bool)
      requires Valid()
      modifies this`instances, this`running
      ensures Valid() && (CanRepro(triaged) || instances == [])
      ensures CanRepro(triaged) ==> instances == old(instances)
      ensures instances <= old(instances) && running == old(running) + set i | i in old(instances)[|instances|..]
    {
      hide Partition, TitlesExact;
      while !CanRepro(triaged) && |instances| != 0
        invariant Valid() && instances <= old(instances) && (CanRepro(triaged) ==> instances == old(instances))
        invariant running == old(running) + set i | i in old(instances)[|instances|..]
        decreases |instances|
      {
        var last := |instances| - 1;
        var idx := instances[last];
        RunStarts(instances, running, active, vmCount);
        assert old(instances)[last..] == [idx] + old(instances)[|instances|..];
        instances := instances[..last];
        running := running + {idx};
      }
    }

    /** One turn of the loop up to the wait. A queued crash waits only for lack of instances or before triage
        is over, and then no instance is free; a shutdown starts nothing. Afterwards something is always
        under way. */
    method Prepare(triaged: bool, need: Crash -> bool)
      requires Valid()
      modifies this`instances, this`running, this`pending, this`reproducing, this`queue, this`reproInstances,
        this`active, this`settled
      ensures Valid() && old(active) <= active && old(running) <= running && instances <= old(instances)
      ensures forall c :: c in pending ==> c.title in reproducing
      ensures settled == old(settled) + set c | c in old(pending) && c !in pending && !need(c)
      ensures shutdown || !triaged ==> active == old(active)
      ensures shutdown ==> instances == old(instances) && running == old(running)
      ensures !shutdown && triaged && queue != [] ==> |instances| < per || reproInstances + per > vmCount
      ensures !shutdown && instances != [] ==>
        triaged && queue != [] && reproInstances + per <= vmCount && running == old(running)
      ensures (!shutdown && vmCount > 0) || (shutdown && |instances| != vmCount) ==> running != {} || active != []
    {
      hide Partition, TitlesExact;
      Promote(need);
      if !shutdown {
        StartRepros(triaged);
        StartInstances(triaged);
      }
      SomethingRuns(instances, running, active, vmCount, per);
    }

    /** Can this happen now? Only what was started finishes, and a stop is only asked for when a
        reproduction waits for instances. */
    predicate Possible(e: Event, triaged: bool)
      reads this
    {
      match e
      case StopIssued => !stopPending && CanRepro(triaged)
      case RunDone(idx, _) => idx in running
      case ReproDone(j) => j < |active|
      case ShutdownRequested => !shutdown
      case HubRepro(_) => true
    }

    method Handle(e: Event, triaged: bool)
      requires Valid() && Possible(e, triaged)
      modifies this`instances, this`running, this`active, this`pending, this`reproducing, this`reproInstances,
        this`stopPending, this`shutdown, this`seen, this`settled
      ensures Valid() && (shutdown <==> old(shutdown) || e == ShutdownRequested)
      ensures stopPending <==> e.StopIssued? || (old(stopPending) && !e.RunDone?)
      ensures settled == old(settled) + if e.ReproDone? then {old(active)[e.which].crash} else {}
      ensures seen == old(seen) + Arrives(e, old(shutdown)) && pending == old(pending) + Arrives(e, old(shutdown))
      ensures e.RunDone? ==>
        instances == old(instances) + [e.idx] && running == old(running) - {e.idx} && active == old(active)
      ensures e.ReproDone? ==> instances == old(instances) + old(active)[e.which].vms && running == old(running)
      ensures e.ReproDone? ==>
        && reproducing == old(reproducing) - {old(active)[e.which].crash.title}
        && active == old(active)[..e.which] + old(active)[e.which + 1..]
      ensures !e.RunDone? && !e.ReproDone? ==>
        instances == old(instances) && running == old(running) && active == old(active)
      ensures !e.ReproDone? ==> reproducing == old(reproducing)
    {
      hide Partition, TitlesExact, Outstanding;
      match e
      case StopIssued => stopPending := true;
      case RunDone(idx, crashes) =>
        stopPending := false;
        RunEnds(instances, running, active, vmCount, idx);
        Arrived(pending, queue, active, crashes);
        instances := instances + [idx];
        running := running - {idx};
        if !shutdown {
          pending := pending + crashes;
          seen := seen + crashes;
        }
      case ReproDone(j) =>
        var r := active[j];
        WithoutOne(pending, queue, active, j);
        settled := settled + {r.crash};
        TitleEnds(queue, active, reproducing, j);
        ReproEnds(instances, running, active, vmCount, j);
        MulStep(per, |active|);
        reproducing := reproducing - {r.crash.title};
        instances := instances + r.vms;
        reproInstances := reproInstances - per;
        active := active[..j] + active[j + 1..];
      case ShutdownRequested => shutdown := true;
      case HubRepro(crash) =>
        Arrived(pending, queue, active, {crash});
        pending := pending + {crash};
        seen := seen + {crash};
    }

    /** One turn of the loop; an event that cannot happen is skipped. */
    method Turn(triaged: bool, need: Crash -> bool, e: Event) returns (ghost busy: bool)
      requires Valid() && (!shutdown || |instances| != vmCount)
      modifies this
      ensures Valid() && (vmCount > 0 ==> busy)
      ensures shutdown <==> old(shutdown) || e == ShutdownRequested
    {
      hide Partition, TitlesExact, Outstanding;
      Prepare(triaged, need);
      busy := running != {} || active != [];
      if Possible(e, triaged) {
        Handle(e, triaged);
      }
    }
  }

  /** The crashes that an event brings; none counts that comes with the end of a run during shutdown. */
  function Arrives(e: Event, shutdown: bool): set<Crash> {
    match e
    case RunDone(_, crashes) => if shutdown then {} else crashes
    case HubRepro(crash) => {crash}
    case _ => {}
  }

  /** The crashes that wait for a reproduction or are being reproduced. */
  ghost function Outstanding(pending: set<Crash>, queue: seq<Crash>, active: seq<Repro>): set<Crash> {
    pending + (set c | c in queue) + (set r | r in active :: r.crash)
  }

  /** Crashes from the end of the queue have been started, last first. */
  ghost predicate Moved(queue0: seq<Crash>, queue: seq<Crash>, active0: seq<Repro>, active: seq<Repro>) {
    && queue <= queue0 && active0 <= active && |queue| + |active| == |queue0| + |active0|
    && forall i :: |active0| <= i < |active| ==> active[i].crash == queue0[|queue0| + |active0| - 1 - i]
  }

  lemma MovedOne(pending: set<Crash>, queue: seq<Crash>, active: seq<Repro>, vms: seq<nat>)
    requires queue != []
    ensures var last := |queue| - 1;
      Outstanding(pending, queue[..last], active + [Repro(queue[last], vms)]) == Outstanding(pending, queue, active)
  {
    var last := |queue| - 1;
    var r := Repro(queue[last], vms);
    assert queue == queue[..last] + [queue[last]];
    var a, b := Outstanding(pending, queue[..last], active + [r]), Outstanding(pending, queue, active);
    forall c | c in b
      ensures c in a
    {
      if c == queue[last] {
        assert r in active + [r];
      } else if c !in queue && c !in pending {
        var q :| q in active && q.crash == c;
        assert q in active + [r];
      }
    }
  }

  lemma MovedNothing(queue: seq<Crash>, active: seq<Repro>)
    ensures Moved(queue, queue, active, active)
  {
  }

  lemma MovedMore(queue0: seq<Crash>, queue: seq<Crash>, active0: seq<Repro>, active: seq<Repro>, vms: seq<nat>)
    requires queue != [] && Moved(queue0, queue, active0, active)
    ensures var last := |queue| - 1; Moved(queue0, queue[..last], active0, active + [Repro(queue[last], vms)])
  {
  }

  lemma Promoted(pending: set<Crash>, queue: seq<Crash>, active: seq<Repro>, c: Crash)
    requires c in pending
    ensures Outstanding(pending - {c}, queue + [c], active) == Outstanding(pending, queue, active)
    ensures Outstanding(pending - {c}, queue, active) + {c} == Outstanding(pending, queue, active)
  {
  }

  lemma Arrived(pending: set<Crash>, queue: seq<Crash>, active: seq<Repro>, crashes: set<Crash>)
    ensures Outstanding(pending + crashes, queue, active) == Outstanding(pending, queue, active) + crashes
  {
  }

  lemma WithoutOne(pending: set<Crash>, queue: seq<Crash>, active: seq<Repro>, j: nat)
    requires j < |active|
    ensures Outstanding(pending, queue, active[..j] + active[j + 1..]) + {active[j].crash} ==
            Outstanding(pending, queue, active)
  {
    assert active == active[..j] + ([active[j]] + active[j + 1..]);
  }

  /** A free instance is not running. */
  lemma FreeIsIdle(instances: seq<nat>, running: set<nat>, active: seq<Repro>, n: nat, idx: nat)
    requires Partition(instances, running, active, n) && idx in instances
    ensures idx !in running
  {
    EveryoneCounts(n);
    assert multiset(instances)[idx] >= 1;
    assert (multiset(instances) + multiset(running) + Held(active))[idx] <= 1;
  }

  /** If nothing runs, all instances are free. */
  lemma SomethingRuns(instances: seq<nat>, running: set<nat>, active: seq<Repro>, n: nat, per: nat)
    requires Partition(instances, running, active, n) && forall r :: r in active ==> |r.vms| == per
    ensures |instances| + |running| + per * |active| == n
  {
    EveryoneCounts(n);
    HeldSize(active, per);
    assert |multiset(instances) + multiset(running) + Held(active)| == |instances| + |running| + |Held(active)|;
  }

  /** The whole loop on a script of phases, decisions and events; what cannot happen is skipped, and which
      crashes need a reproduction may change from turn to turn. At every wait something is under way. It stops
      only when shut down and every instance has been returned. */
  method Run(vmCount: nat, triaged: seq<bool>, needs: seq<Crash -> bool>, script: seq<Event>)
    returns (l: Loop, complete: bool, ghost busy: seq<bool>)
    requires |triaged| == |needs| == |script|
    ensures fresh(l) && l.Valid() && l.vmCount == vmCount && (complete || |busy| == |script|)
    ensures vmCount > 0 ==> forall k :: 0 <= k < |busy| ==> busy[k]
    ensures complete ==>
      && l.shutdown && l.running == {} && (vmCount > 0 ==> l.active == [])
      && multiset(l.instances) == Everyone(vmCount)
  {
    l := new Loop(vmCount);
    busy := [];
    var k := 0;
    while (!l.shutdown || |l.instances| != vmCount) && k < |script|
      invariant fresh(l) && l.Valid() && l.vmCount == vmCount && k == |busy| <= |script|
      invariant vmCount > 0 ==> forall k :: 0 <= k < |busy| ==> busy[k]
      decreases |script| - k
    {
      ghost var b := l.Turn(triaged[k], needs[k], script[k]);
      busy := busy + [b];
      k := k + 1;
    }
    complete := l.shutdown && |l.instances| == vmCount;
    SomethingRuns(l.instances, l.running, l.active, vmCount, l.per);
    if complete {
      AllReturned(l.instances, l.running, l.active, vmCount, l.per);
    }
  }

  lemma AllReturned(instances: seq<nat>, running: set<nat>, active: seq<Repro>, n: nat, per: nat)
    requires Partition(instances, running, active, n) && (forall r :: r in active ==> |r.vms| == per)
    requires |instances| == n && (n > 0 ==> per > 0)
    ensures running == {} && (n > 0 ==> active == []) && multiset(instances) == Everyone(n)
  {
    SomethingRuns(instances, running, active, n, per);
    HeldSize(active, per);
    assert |Held(active)| == 0;
    if |active| > 0 {
      MulStep(per, |active|);
    }
    assert Held(active) == multiset{};
    assert multiset(running) == multiset{};
  }
}
