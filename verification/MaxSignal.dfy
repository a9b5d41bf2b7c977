/** How the manager and its fuzzers share the maximal signal. A fuzzer reports what it has newly seen
    with its next poll; the manager keeps, for every connected fuzzer, what that fuzzer has not been
    told yet, and hands it out in batches with the replies. Requests and replies take time, and a
    fuzzer goes on fuzzing while it waits. */
module MaxSignal {
  import opened Signals

  const BATCH: nat := 500

  /** A poll of a fuzzer: none, its request under way or its reply under way. */
  datatype Poll = Idle | Requested(request: Signal) | Replied(reply: Signal)

  /** A fuzzer: its maximal signal, what of it is not reported yet, its poll, and all it ever found new. */
  datatype Fuzzer = Fuzzer(max: Signal, fresh_: Signal, poll: Poll, found: Signal)

  function Request(f: Fuzzer): Signal { if f.poll.Requested? then f.poll.request else map[] }

  function Reply(f: Fuzzer): Signal { if f.poll.Replied? then f.poll.reply else map[] }

  /** The manager: the maximal signal, and per connected fuzzer what it still has to be told. */
  datatype State = State(max: Signal, pending: map<string, Signal>, fuzzers: map<string, Fuzzer>)

  const INIT := State(map[], map[], map[])

  datatype Step =
    | Connect(name: string)                                   // a new process connects under this name
    | Discover(name: string, signal: Signal)                  // a program yields this signal
    | Learn(name: string, signal: Signal)                     // an input from elsewhere is added
    | SendPoll(name: string)
    | ServePoll(name: string, batch: Signal, rest: Signal)    // the manager chooses a batch
    | Receive(name: string)

  /** Can the step happen? */
  predicate Enabled(s: State, step: Step) {
    match step
    case Connect(_) => true
    case Discover(name, _) => name in s.fuzzers
    case Learn(name, _) => name in s.fuzzers
    case SendPoll(name) => name in s.fuzzers && s.fuzzers[name].poll.Idle?
    case ServePoll(name, batch, rest) =>
      name in s.fuzzers && name in s.pending && s.fuzzers[name].poll.Requested?
        && Split(s.pending[name], BATCH, batch, rest)
    case Receive(name) => name in s.fuzzers && s.fuzzers[name].poll.Replied?
  }

  function With(s: State, name: string, f: Fuzzer): State { s.(fuzzers := s.fuzzers[name := f]) }

  /** What the fuzzers still have to be told, after `news` from one of them. */
  function Tell(pending: map<string, Signal>, sender: string, news: Signal): map<string, Signal> {
    map name | name in pending :: if name == sender then pending[name] else Merge(pending[name], news)
  }

  function Apply(s: State, step: Step): State
    requires Enabled(s, step)
  {
    match step
    case Connect(name) =>
      s.(pending := s.pending[name := s.max], fuzzers := s.fuzzers[name := Fuzzer(map[], map[], Idle, map[])])
    case Discover(name, signal) =>
      var f := s.fuzzers[name];
      var diff := Diff(f.max, signal);
      With(s, name, f.(max := Merge(f.max, diff), fresh_ := Merge(f.fresh_, diff), found := Merge(f.found, diff)))
    case Learn(name, signal) =>
      var f := s.fuzzers[name];
      With(s, name, f.(max := Merge(f.max, signal)))
    case SendPoll(name) =>
      var f := s.fuzzers[name];
      With(s, name, f.(poll := Requested(f.fresh_), fresh_ := map[]))
    case ServePoll(name, batch, rest) =>
      var f := s.fuzzers[name];
      var news := Diff(s.max, f.poll.request);
      State(Merge(s.max, news), Tell(s.pending, name, news)[name := rest],
            s.fuzzers[name := f.(poll := Replied(batch))])
    case Receive(name) =>
      var f := s.fuzzers[name];
      With(s, name, f.(max := Merge(f.max, f.poll.reply), poll := Idle))
  }

  /** What a fuzzer knows or is going to be told. */
  function Known(f: Fuzzer, pending: Signal): Signal { Merge(Merge(f.max, Reply(f)), pending) }

  /** A fuzzer is going to know everything the manager knows, and nothing it found is forgotten. */
  ghost predicate FuzzerOk(max: Signal, pending: Signal, f: Fuzzer) {
    && Covered(max, Known(f, pending))
    && Covered(pending, max) && Covered(Reply(f), max)
    && Covered(f.fresh_, f.max) && Covered(Request(f), f.max)
    && Covered(f.found, Merge(max, Merge(f.fresh_, Request(f))))
  }

  ghost predicate Inv(s: State) {
    && s.fuzzers.Keys == s.pending.Keys
    && forall name :: name in s.fuzzers && name in s.pending ==> FuzzerOk(s.max, s.pending[name], s.fuzzers[name])
  }

  lemma ConnectOk(max: Signal)
    ensures FuzzerOk(max, max, Fuzzer(map[], map[], Idle, map[]))
  {
    hide Covered, Merge;
    EmptyCovered(max);
    EmptyCovered(map[]);
    EmptyCovered(Merge(max, Merge(map[], map[])));
    CoveredSelf(max);
  }

  /** Knowing more keeps a fuzzer in order. */
  lemma KnownMore(f: Fuzzer, f1: Fuzzer, pending: Signal)
    requires Covered(f.max, f1.max) && Covered(Reply(f), Reply(f1))
    ensures Covered(Known(f, pending), Known(f1, pending))
  {
    hide Covered, Merge;
    CoveredSelf(pending);
    MergeMonotone(f.max, Reply(f), f1.max, Reply(f1));
    MergeMonotone(Merge(f.max, Reply(f)), pending, Merge(f1.max, Reply(f1)), pending);
  }

  lemma DiscoverOk(max: Signal, pending: Signal, f: Fuzzer, diff: Signal)
    requires FuzzerOk(max, pending, f)
    ensures FuzzerOk(max, pending, f.(max := Merge(f.max, diff), fresh_ := Merge(f.fresh_, diff), found :=
                                      Merge(f.found, diff)))
  {
    hide Covered, Merge;
    var f1 := f.(max := Merge(f.max, diff), fresh_ := Merge(f.fresh_, diff), found := Merge(f.found, diff));
    CoveredSelf(Reply(f));
    KnownMore(f, f1, pending);
    CoveredTrans(max, Known(f, pending), Known(f1, pending));
    CoveredSelf(diff);
    MergeMonotone(f.fresh_, diff, f.max, diff);
    CoveredTrans(Request(f), f.max, f1.max);
    var own, own1 := Merge(f.fresh_, Request(f)), Merge(f1.fresh_, Request(f));
    CoveredSelf(max);
    CoveredSelf(Request(f));
    MergeMonotone(f.fresh_, Request(f), f1.fresh_, Request(f));
    MergeMonotone(max, own, max, own1);
    CoveredTrans(f.found, Merge(max, own), Merge(max, own1));
    CoveredTrans(diff, f1.fresh_, own1);
    CoveredTrans(diff, own1, Merge(max, own1));
    MergeLeast(f.found, diff, Merge(max, own1));
  }

  lemma LearnOk(max: Signal, pending: Signal, f: Fuzzer, signal: Signal)
    requires FuzzerOk(max, pending, f)
    ensures FuzzerOk(max, pending, f.(max := Merge(f.max, signal)))
  {
    hide Covered, Merge;
    var f1 := f.(max := Merge(f.max, signal));
    CoveredSelf(Reply(f));
    KnownMore(f, f1, pending);
    CoveredTrans(max, Known(f, pending), Known(f1, pending));
    CoveredTrans(f.fresh_, f.max, f1.max);
    CoveredTrans(Request(f), f.max, f1.max);
  }

  lemma SendOk(max: Signal, pending: Signal, f: Fuzzer)
    requires FuzzerOk(max, pending, f) && f.poll.Idle?
    ensures FuzzerOk(max, pending, f.(poll := Requested(f.fresh_), fresh_ := map[]))
  {
    EmptyCovered(f.max);
    MergeEmpty(f.fresh_);
  }

  lemma MergeEmpty(a: Signal)
    ensures Merge(a, map[]) == Merge(map[], a) == a
  {
  }

  /** The sender of a poll already knows its own news; it gets a batch and the rest stays pending. */
  lemma SenderOk(max: Signal, pending: Signal, f: Fuzzer, batch: Signal, rest: Signal)
    requires FuzzerOk(max, pending, f) && f.poll.Requested? && Split(pending, BATCH, batch, rest)
    ensures FuzzerOk(Merge(max, Diff(max, f.poll.request)), rest, f.(poll := Replied(batch)))
  {
    hide Covered, Merge, Diff, Split;
    var f1, max1 := f.(poll := Replied(batch)), Merge(max, f.poll.request);
    MergeDiff(max, f.poll.request);
    SplitCovers(pending, BATCH, batch, rest);
    SenderKnows(max, pending, f, batch, rest);
    CoveredTrans(batch, pending, max);
    CoveredTrans(batch, max, max1);
    CoveredTrans(rest, pending, max);
    CoveredTrans(rest, max, max1);
    EmptyCovered(f.max);
    var req, own := f.poll.request, Merge(f.fresh_, f.poll.request);
    CoveredTrans(max, max1, Merge(max1, Merge(f.fresh_, map[])));
    CoveredTrans(req, max1, Merge(max1, Merge(f.fresh_, map[])));
    CoveredTrans(f.fresh_, Merge(f.fresh_, map[]), Merge(max1, Merge(f.fresh_, map[])));
    MergeLeast(f.fresh_, req, Merge(max1, Merge(f.fresh_, map[])));
    MergeLeast(max, own, Merge(max1, Merge(f.fresh_, map[])));
    CoveredTrans(f.found, Merge(max, own), Merge(max1, Merge(f.fresh_, map[])));
  }

  lemma SenderKnows(max: Signal, pending: Signal, f: Fuzzer, batch: Signal, rest: Signal)
    requires FuzzerOk(max, pending, f) && f.poll.Requested? && Split(pending, BATCH, batch, rest)
    ensures Covered(Merge(max, f.poll.request), Known(f.(poll := Replied(batch)), rest))
  {
    hide Covered, Merge, Diff, Split;
    var know := Known(f.(poll := Replied(batch)), rest);
    SplitCovers(pending, BATCH, batch, rest);
    CoveredTrans(f.max, Merge(f.max, batch), know);
    CoveredTrans(batch, Merge(f.max, batch), know);
    MergeLeast(batch, rest, know);
    CoveredTrans(pending, Merge(batch, rest), know);
    EmptyCovered(know);
    MergeLeast(f.max, map[], know);
    MergeLeast(Merge(f.max, map[]), pending, know);
    CoveredTrans(max, Known(f, pending), know);
    CoveredTrans(f.poll.request, f.max, know);
    MergeLeast(max, f.poll.request, know);
  }

  /** Every other fuzzer is going to be told the news. */
  lemma OtherOk(max: Signal, pending: Signal, f: Fuzzer, news: Signal)
    requires FuzzerOk(max, pending, f)
    ensures FuzzerOk(Merge(max, news), Merge(pending, news), f)
  {
    hide Covered, Merge;
    var max1, pending1 := Merge(max, news), Merge(pending, news);
    CoveredSelf(news);
    CoveredSelf(Merge(f.max, Reply(f)));
    MergeMonotone(Merge(f.max, Reply(f)), pending, Merge(f.max, Reply(f)), pending1);
    CoveredTrans(max, Known(f, pending), Known(f, pending1));
    CoveredTrans(news, pending1, Known(f, pending1));
    MergeLeast(max, news, Known(f, pending1));
    MergeMonotone(pending, news, max, news);
    CoveredTrans(Reply(f), max, max1);
    var own := Merge(f.fresh_, Request(f));
    CoveredSelf(own);
    MergeMonotone(max, own, max1, own);
    CoveredTrans(f.found, Merge(max, own), Merge(max1, own));
  }

  lemma ReceiveOk(max: Signal, pending: Signal, f: Fuzzer)
    requires FuzzerOk(max, pending, f) && f.poll.Replied?
    ensures FuzzerOk(max, pending, f.(max := Merge(f.max, f.poll.reply), poll := Idle))
  {
    hide Covered;
    var f1 := f.(max := Merge(f.max, f.poll.reply), poll := Idle);
    MergeEmpty(f1.max);
    hide Merge;
    assert Known(f1, pending) == Known(f, pending);
    EmptyCovered(max);
    EmptyCovered(f1.max);
    CoveredTrans(f.fresh_, f.max, f1.max);
  }

  lemma StepKeeps(s: State, step: Step)
    requires Inv(s) && Enabled(s, step)
    ensures Inv(Apply(s, step))
  {
    hide FuzzerOk, Split, Merge, Diff;
    match step
    case Connect(_) => ConnectOk(s.max);
    case Discover(name, signal) => DiscoverOk(s.max, s.pending[name], s.fuzzers[name],
                                              Diff(s.fuzzers[name].max, signal));
    case Learn(name, signal) => LearnOk(s.max, s.pending[name], s.fuzzers[name], signal);
    case SendPoll(name) => SendOk(s.max, s.pending[name], s.fuzzers[name]);
    case ServePoll(name, batch, rest) =>
      SenderOk(s.max, s.pending[name], s.fuzzers[name], batch, rest);
      var news := Diff(s.max, s.fuzzers[name].poll.request);
      forall other | other in s.fuzzers && other != name
        ensures FuzzerOk(Merge(s.max, news), Merge(s.pending[other], news), s.fuzzers[other])
      {
        OtherOk(s.max, s.pending[other], s.fuzzers[other], news);
      }
    case Receive(name) => ReceiveOk(s.max, s.pending[name], s.fuzzers[name]);
  }

  // ---- whole histories ----

  ghost predicate History(steps: seq<Step>, states: seq<State>) {
    && |states| == |steps| + 1 && states[0] == INIT
    && forall k :: 0 <= k < |steps| ==> Enabled(states[k], steps[k]) && states[k + 1] == Apply(states[k], steps[k])
  }

  lemma {:induction false} Always(steps: seq<Step>, states: seq<State>, k: nat)
    requires History(steps, states) && k < |states|
    ensures Inv(states[k])
  {
    if k > 0 {
      Always(steps, states, k - 1);
      StepKeeps(states[k - 1], steps[k - 1]);
    }
  }

  /** At every moment each connected fuzzer knows, or will be told with its next replies, all of the
      manager's signal; and all that a fuzzer found new is with the manager or on its way there. */
  lemma NoSignalLost(steps: seq<Step>, states: seq<State>, k: nat, name: string)
    requires History(steps, states) && k < |states| && name in states[k].fuzzers
    ensures name in states[k].pending
    ensures var s, f := states[k], states[k].fuzzers[name];
      Covered(s.max, Known(f, s.pending[name])) && Covered(f.found, Merge(s.max, Merge(f.fresh_, Request(f))))
  {
    Always(steps, states, k);
  }

  /** No step but a new connection under its name takes anything from what a fuzzer knows or has found, and the
      manager forgets nothing. */
  lemma StepGrows(s: State, step: Step, name: string)
    requires Enabled(s, step) && name in s.fuzzers && step != Connect(name)
    ensures var s1 := Apply(s, step);
      && name in s1.fuzzers && Covered(s.fuzzers[name].max, s1.fuzzers[name].max)
      && Covered(s.fuzzers[name].found, s1.fuzzers[name].found) && Covered(s.max, s1.max)
  {
    hide Covered, Merge, Diff, Split;
    CoveredSelf(s.fuzzers[name].max);
    CoveredSelf(s.fuzzers[name].found);
    CoveredSelf(s.max);
  }

  ghost predicate Stays(steps: seq<Step>, i: nat, k: nat, name: string) {
    forall j :: i <= j < k && j < |steps| ==> steps[j] != Connect(name)
  }

  lemma {:induction false} KeepsGrowing(steps: seq<Step>, states: seq<State>, i: nat, k: nat, name: string)
    requires History(steps, states) && i <= k < |states| && name in states[i].fuzzers && Stays(steps, i, k, name)
    ensures name in states[k].fuzzers && Covered(states[i].fuzzers[name].max, states[k].fuzzers[name].max)
    ensures Covered(states[i].fuzzers[name].found, states[k].fuzzers[name].found)
  {
    hide Covered, Apply, Enabled;
    if i < k {
      KeepsGrowing(steps, states, i, k - 1, name);
      StepGrows(states[k - 1], steps[k - 1], name);
      CoveredTrans(states[i].fuzzers[name].max, states[k - 1].fuzzers[name].max, states[k].fuzzers[name].max);
      CoveredTrans(states[i].fuzzers[name].found, states[k - 1].fuzzers[name].found, states[k].fuzzers[name].found);
    } else {
      CoveredSelf(states[i].fuzzers[name].max);
      CoveredSelf(states[i].fuzzers[name].found);
    }
  }

  /** What a fuzzer discovers or learns in step i it knows ever after, and what of its discovery was new to it is
      with the manager or on its way there, at every later moment until its process is replaced. */
  lemma DiscoveryStays(steps: seq<Step>, states: seq<State>, i: nat, k: nat, name: string, signal: Signal)
    requires History(steps, states) && i < |steps| && i < k < |states| && Stays(steps, i, k, name)
    requires steps[i] == Discover(name, signal) || steps[i] == Learn(name, signal)
    ensures name in states[i].fuzzers && name in states[k].fuzzers && Covered(signal, states[k].fuzzers[name].max)
    ensures steps[i].Discover? ==> var f := states[k].fuzzers[name];
      forall e :: e in signal && !(e in states[i].fuzzers[name].max && states[i].fuzzers[name].max[e] >= signal[e]) ==>
        var all := Merge(states[k].max, Merge(f.fresh_, Request(f))); e in all && all[e] >= signal[e]
  {
    var f0, f1 := states[i].fuzzers[name], states[i + 1].fuzzers[name];
    assert states[i + 1] == Apply(states[i], steps[i]);
    MergeDiff(f0.max, signal);
    assert Covered(signal, f1.max) && (steps[i].Discover? ==> Covered(Diff(f0.max, signal), f1.found));
    KeepsGrowing(steps, states, i + 1, k, name);
    var f := states[k].fuzzers[name];
    CoveredTrans(signal, f1.max, f.max);
    NoSignalLost(steps, states, k, name);
    if steps[i].Discover? {
      CoveredTrans(Diff(f0.max, signal), f1.found, f.found);
      CoveredTrans(Diff(f0.max, signal), f.found, Merge(states[k].max, Merge(f.fresh_, Request(f))));
    }
  }

  /** A served poll takes the next batch off what is pending; once nothing is left pending, the
      fuzzer knows everything as soon as it receives that reply. */
  lemma PollsDrain(s: State, name: string, batch: Signal, rest: Signal)
    requires Inv(s) && Enabled(s, ServePoll(name, batch, rest))
    ensures var s1 := Apply(s, ServePoll(name, batch, rest));
      name in s1.pending && s1.pending[name] == rest && name in s1.fuzzers && s1.fuzzers[name].poll == Replied(batch)
    ensures |rest| == if |s.pending[name]| < BATCH then 0 else |s.pending[name]| - BATCH
    ensures |rest| == 0 ==> Covered(Apply(s, ServePoll(name, batch, rest)).max, Merge(s.fuzzers[name].max, batch))
  {
    hide Covered, Merge, Diff, Split;
    StepKeeps(s, ServePoll(name, batch, rest));
    SplitCovers(s.pending[name], BATCH, batch, rest);
    BatchSize(s.pending[name], BATCH, batch, rest);
    if |rest| == 0 {
      assert rest == map[];
      MergeEmpty(Merge(s.fuzzers[name].max, batch));
    }
  }

  lemma BatchSize(s: Signal, n: nat, c: Signal, rest: Signal)
    requires Split(s, n, c, rest)
    ensures |c| == if |s| < n then |s| else n
  {
  }
}
