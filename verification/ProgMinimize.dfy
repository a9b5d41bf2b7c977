/** The first phase of minimisation on programs in memory: each trial is a clone with one call removed. */
module ProgMinimize {
  import opened ProgTypes
  import opened DefUse
  import opened ArgNodes
  import opened MinimizeCalls
  import opened ProgValues
  import ProgEdits

  /** What a program stands for under given numbers of its results. */
  ghost function Meaning(p: ProgEdits.Prog, names: Names): Prog
    requires p.Own() <= names.Keys
    reads p, p.Own()
  {
    Prog(CallsValue(names, p.Links(), p.calls))
  }

  /** The working program stands for the kept calls of the original. */
  ghost predicate Working(p: ProgEdits.Prog, names: Names, v0: Prog, kept: seq<nat>)
    reads p, p.Own(), p.own
  {
    && p.Valid() && p.Own() <= names.Keys && Unambiguous(names)
    && Increasing(kept, |v0.calls|) && Meaning(p, names) == Keep(v0, kept)
  }

  lemma WorkingCalls(p: ProgEdits.Prog, names: Names, v0: Prog, kept: seq<nat>)
    requires Working(p, names, v0, kept)
    ensures |p.calls| == |kept| == |p.nodes|
  {
  }

  /** One trial: a clone without call i. */
  method Try(p: ProgEdits.Prog, i: nat, ghost names: Names, ghost v0: Prog, ghost kept: seq<nat>)
    returns (q: ProgEdits.Prog, ghost names1: Names)
    requires Working(p, names, v0, kept) && i < |kept|
    ensures fresh(q) && Working(q, names1, v0, Drop(kept, i)) && Working(p, names, v0, kept)
  {
    hide ProgEdits.Prog.Linked, ProgEdits.Prog.Shaped, Keep, Without, Drop, Increasing, CallsValue, Unambiguous,
      ValueOf;
    assert allocated(p.Order());
    WorkingCalls(p, names, v0, kept);
    DropKept(v0, kept, i);
    q, names1 := TryWithout(p, i, names);
  }

  /** Removes calls as long as the answers allow it. The result stands for the original reduced to some of
      its calls; the index follows its call; a changed result was accepted; the removal of every other call
      that is kept was refused when it was tried; and the original is as before. */
  method RemoveCalls(p0: ProgEdits.Prog, callIndex0: int, answers: nat -> bool, ghost names0: Names)
    returns (p: ProgEdits.Prog, callIndex: int, ghost kept: seq<nat>, ghost log: seq<Question>, ghost names: Names)
    requires p0.Valid() && -1 <= callIndex0 < |p0.calls| && p0.Own() <= names0.Keys && Unambiguous(names0)
    ensures p0.Valid() && ValueOf(p0) == old(ValueOf(p0)) && Shape(p0.own) == old(Shape(p0.own))
    ensures Working(p, names, old(Meaning(p0, names0)), kept)
    ensures forall k :: 0 <= k < |log| ==> log[k].answer == answers(k)
    ensures if callIndex0 == -1 then callIndex == -1 else 0 <= callIndex < |kept| && kept[callIndex] == callIndex0
    ensures (p == p0 && callIndex == callIndex0) || Question(Meaning(p, names), callIndex, true) in log
    ensures callIndex < |kept| && forall j :: 0 <= j < |kept| && j != callIndex ==>
              Refused(old(Meaning(p0, names0)), log, kept, callIndex, j)
  {
    hide ProgEdits.Prog.Linked, RepCalls, Tracks, Keep, Without, Drop, Increasing, Refused, CallsValue;
    hide Unambiguous, ValueOf;
    assert allocated(p0.Order());
    ghost var v0 := Meaning(p0, names0);
    p, callIndex, kept, log, names := p0, callIndex0, Upto(|p0.calls|), [], names0;
    KeepAll(v0);
    TracksStart(v0, callIndex0, log);
    WorkingCalls(p, names, v0, kept);
    var i: int := |p0.nodes| - 1;
    var asked: nat := 0;
    while i >= 0
      invariant -1 <= i < |v0.calls| && asked == |log| && p0.Valid()
      invariant Working(p, names, v0, kept) && Tracks(v0, callIndex0, log, callIndex, kept, i)
      invariant forall k :: 0 <= k < |log| ==> log[k].answer == answers(k)
      invariant (p == p0 && callIndex == callIndex0) || Question(Meaning(p, names), callIndex, true) in log
      invariant allocated(p.Order())
      decreases i
    {
      TracksBounds(v0, callIndex0, log, callIndex, kept, i);
      if i != callIndex {
        var index := if i < callIndex then callIndex - 1 else callIndex;
        var q;
        ghost var names1;
        q, names1 := Try(p, i, names, v0, kept);
        var answer := answers(asked);
        asked := asked + 1;
        ghost var question := Question(Meaning(q, names1), index, answer);
        TracksMore(v0, callIndex0, log, question, callIndex, kept, i);
        log := log + [question];
        if answer {
          TracksDrop(v0, callIndex0, log, callIndex, kept, i);
          p, callIndex, kept, names := q, index, Drop(kept, i), names1;
        } else {
          TracksRefused(v0, callIndex0, log, callIndex, kept, i, index);
        }
      } else {
        TracksTarget(v0, callIndex0, log, callIndex, kept, i);
      }
      i := i - 1;
    }
    TracksEnd(v0, callIndex0, log, callIndex, kept);
    Isolation(p0);
  }
}
