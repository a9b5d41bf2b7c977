/** What minimisation of arguments asks and what the answers do. Every question is about the working copy with
    one thing simplified. An accepted change stays and a refused one is undone, except that a removal ends the
    pass and leaves the working copy as it was asked about. */
module MinimizeLog {
  import opened Minimize
  import Numbers

  /** A question about arguments, and its answer. */
  datatype Asked = Asked(state: seq<Node>, answer: bool)

  type Log = seq<Asked>

  /** What the last accepted question was about; the start if none was accepted. */
  ghost function Accepted(s: seq<Node>, log: Log): seq<Node> {
    if log == [] then s
    else if log[|log| - 1].answer then log[|log| - 1].state
    else Accepted(s, log[..|log| - 1])
  }

  ghost predicate AnyYes(log: Log) { exists k :: 0 <= k < |log| && log[k].answer }

  // ---- one simplification ----

  /** b is a with one thing simplified: a value reset, a reference dropped, data cut, a pointee or an element
      removed. After a crash only pointees and data are tried. */
  ghost predicate Simpler(crash: bool, a: Node, b: Node)
    decreases a
  {
    match a
    case Int(name, val, default) => !crash && val != default && b == Int(name, default, default)
    case Res(name, value, default) => !crash && value.Linked? && b == Res(name, Plain(default), default)
    case Blob(name, data, minLen) =>
      b.Blob? && b == Blob(name, b.data, minLen) && minLen <= |b.data| < |data| && b.data <= data
    case Other(_) => false
    case Ptr(name, res) => b.Ptr? && b.name == name && ((res != [] && b.res == []) || OneSimpler(crash, res, b.res))
    case Array(name, elems, random, minElems) =>
      && b.Array? && b == Array(name, b.elems, random, minElems)
      && (OneSimpler(crash, elems, b.elems)
          || (!crash && (random || |elems| > minElems) && OneLess(elems, b.elems)))
    case Struct(name, fields) => b.Struct? && b.name == name && OneSimpler(crash, fields, b.fields)
  }

  ghost predicate OneSimpler(crash: bool, a: seq<Node>, b: seq<Node>)
    decreases a
  {
    |a| == |b| && exists i :: 0 <= i < |a| && b == a[i := b[i]] && Simpler(crash, a[i], b[i])
  }

  ghost predicate OneLess(a: seq<Node>, b: seq<Node>) {
    exists i :: 0 <= i < |a| && b == a[..i] + a[i + 1..]
  }

  ghost predicate Step(crash: bool, drop: bool, a: seq<Node>, b: seq<Node>) {
    OneSimpler(crash, a, b) || (drop && !crash && OneLess(a, b))
  }

  /** A stretch of work that starts at s with question number `asked` and ends at s1; `again` says that it ended
      with a removal. Elements may be removed from the list itself only if `drop` says so. */
  ghost predicate Logged(crash: bool, drop: bool, ans: Answers, asked: nat, s: seq<Node>, log: Log, s1: seq<Node>,
                         again: bool) {
    && (forall k :: 0 <= k < |log| ==> log[k].answer == ans(asked + k))
    && (forall k :: 0 <= k < |log| ==> Step(crash, drop, Accepted(s, log[..k]), log[k].state))
    && (forall k :: 0 <= k < |log| && (again ==> k < |log| - 1) ==> SameSize(log[k].state, s))
    && (if again then log != [] && s1 == log[|log| - 1].state && NodesSeq(s1) < NodesSeq(s) else s1 == Accepted(s, log))
  }

  ghost predicate SameSize(a: seq<Node>, b: seq<Node>) { |a| == |b| && NodesSeq(a) == NodesSeq(b) }

  /** The counter of questions is exact; the working copy is kept if a question was accepted, or a blob was met. */
  ghost predicate Counted(ctx: Context, ctx1: Context, log: Log, blob: bool) {
    && ctx1.asked == ctx.asked + |log| && (ctx.kept || AnyYes(log) ==> ctx1.kept)
    && (ctx1.kept ==> ctx.kept || AnyYes(log) || blob)
  }

  ghost predicate HasBlob(t: Node)
    decreases t
  {
    match t
    case Blob(_, _, _) => true
    case Ptr(_, res) => SomeBlob(res)
    case Array(_, elems, _, _) => SomeBlob(elems)
    case Struct(_, fields) => SomeBlob(fields)
    case _ => false
  }

  ghost predicate SomeBlob(ts: seq<Node>)
    decreases ts
  {
    exists i :: 0 <= i < |ts| && HasBlob(ts[i])
  }

  // ---- logs of parts and of wholes ----

  lemma NoQuestion(crash: bool, drop: bool, ans: Answers, ctx: Context, s: seq<Node>, blob: bool)
    ensures Logged(crash, drop, ans, ctx.asked, s, [], s, false) && Counted(ctx, ctx, [], blob)
  {
  }

  /** A change that is undone when it is refused. */
  lemma OneQuestion(crash: bool, drop: bool, ans: Answers, ctx: Context, s: seq<Node>, q: seq<Node>, blob: bool)
    requires Step(crash, drop, s, q) && SameSize(q, s)
    ensures var log := [Asked(q, ans(ctx.asked))];
      && Logged(crash, drop, ans, ctx.asked, s, log, if ans(ctx.asked) then q else s, false)
      && Counted(ctx, Ask(ctx, ans), log, blob)
  {
    hide Step;
    var log := [Asked(q, ans(ctx.asked))];
    assert log[..0] == [] && log[0].answer == ans(ctx.asked);
  }

  /** A removal, which stays and ends the pass. */
  lemma OneRemoval(crash: bool, drop: bool, ans: Answers, ctx: Context, s: seq<Node>, q: seq<Node>, blob: bool)
    requires Step(crash, drop, s, q) && NodesSeq(q) < NodesSeq(s)
    ensures var log := [Asked(q, ans(ctx.asked))];
      Logged(crash, drop, ans, ctx.asked, s, log, q, true) && Counted(ctx, Ask(ctx, ans), log, blob)
  {
    hide Step;
    var log := [Asked(q, ans(ctx.asked))];
    assert log[..0] == [] && log[0].answer == ans(ctx.asked);
  }

  lemma {:induction false} AcceptedThen(s: seq<Node>, log: Log, log1: Log)
    ensures Accepted(s, log + log1) == Accepted(Accepted(s, log), log1)
    decreases log1
  {
    if log1 == [] {
      assert log + log1 == log;
    } else {
      var n := |log1| - 1;
      assert (log + log1)[..|log| + n] == log + log1[..n];
      AcceptedThen(s, log, log1[..n]);
    }
  }

  lemma YesThen(log: Log, log1: Log)
    ensures AnyYes(log + log1) <==> AnyYes(log) || AnyYes(log1)
  {
    if AnyYes(log) {
      var k :| 0 <= k < |log| && log[k].answer;
      assert (log + log1)[k].answer;
    }
    if AnyYes(log1) {
      var k :| 0 <= k < |log1| && log1[k].answer;
      assert (log + log1)[|log| + k].answer;
    }
  }

  lemma {:induction false} AcceptedSize(s: seq<Node>, log: Log, k: nat)
    requires k <= |log| && forall j :: 0 <= j < k ==> SameSize(log[j].state, s)
    ensures SameSize(Accepted(s, log[..k]), s)
  {
    if k > 0 {
      AcceptedSize(s, log, k - 1);
      assert log[..k][..k - 1] == log[..k - 1];
    }
  }

  /** One stretch after another. */
  lemma Then(crash: bool, drop: bool, ans: Answers, asked: nat, s: seq<Node>, log: Log, s1: seq<Node>, log1: Log,
             s2: seq<Node>, again: bool)
    requires Logged(crash, drop, ans, asked, s, log, s1, false)
    requires Logged(crash, drop, ans, asked + |log|, s1, log1, s2, again)
    ensures Logged(crash, drop, ans, asked, s, log + log1, s2, again)
  {
    hide Step, Accepted;
    var all := log + log1;
    AcceptedThen(s, log, log1);
    AcceptedSize(s, log, |log|);
    assert log[..|log|] == log;
    forall k | 0 <= k < |all|
      ensures Step(crash, drop, Accepted(s, all[..k]), all[k].state) && all[k].answer == ans(asked + k)
    {
      if k < |log| {
        assert all[..k] == log[..k];
      } else {
        assert all[..k] == log + log1[..k - |log|];
        AcceptedThen(s, log, log1[..k - |log|]);
        assert log1[k - |log|].answer == ans(asked + |log| + (k - |log|));
      }
    }
  }

  lemma CountedThen(ctx: Context, ctx1: Context, ctx2: Context, log: Log, log1: Log, blob: bool, blob1: bool, all: bool)
    requires Counted(ctx, ctx1, log, blob) && Counted(ctx1, ctx2, log1, blob1) && (blob || blob1 ==> all)
    ensures Counted(ctx, ctx2, log + log1, all)
  {
    hide AnyYes;
    YesThen(log, log1);
  }

  /** The questions about a part, as questions about the whole. */
  ghost function Around(pre: seq<Node>, log: Log, post: seq<Node>): (r: Log)
    ensures |r| == |log|
    ensures forall k :: 0 <= k < |log| ==> r[k] == Asked(pre + log[k].state + post, log[k].answer)
  {
    seq(|log|, k requires 0 <= k < |log| => Asked(pre + log[k].state + post, log[k].answer))
  }

  lemma {:induction false} AcceptedAround(pre: seq<Node>, s: seq<Node>, log: Log, post: seq<Node>, k: nat)
    requires k <= |log|
    ensures Accepted(pre + s + post, Around(pre, log, post)[..k]) == pre + Accepted(s, log[..k]) + post
  {
    if k > 0 {
      AcceptedAround(pre, s, log, post, k - 1);
      assert Around(pre, log, post)[..k][..k - 1] == Around(pre, log, post)[..k - 1];
      assert log[..k][..k - 1] == log[..k - 1];
    }
  }

  lemma OneSimplerAround(crash: bool, pre: seq<Node>, a: seq<Node>, b: seq<Node>, post: seq<Node>)
    requires OneSimpler(crash, a, b)
    ensures OneSimpler(crash, pre + a + post, pre + b + post)
  {
    hide Simpler;
    var i :| 0 <= i < |a| && b == a[i := b[i]] && Simpler(crash, a[i], b[i]);
    var x, y, j := pre + a + post, pre + b + post, |pre| + i;
    assert x[j] == a[i] && y[j] == b[i];
    assert y == x[j := y[j]];
  }

  lemma OneLessAround(pre: seq<Node>, a: seq<Node>, b: seq<Node>, post: seq<Node>)
    requires OneLess(a, b)
    ensures OneLess(pre + a + post, pre + b + post)
  {
    var i :| 0 <= i < |a| && b == a[..i] + a[i + 1..];
    var x, j := pre + a + post, |pre| + i;
    assert x[..j] == pre + a[..i] && x[j + 1..] == a[i + 1..] + post;
    assert pre + b + post == x[..j] + x[j + 1..];
  }

  lemma StepAround(crash: bool, drop: bool, pre: seq<Node>, a: seq<Node>, b: seq<Node>, post: seq<Node>)
    requires Step(crash, drop, a, b)
    ensures Step(crash, drop, pre + a + post, pre + b + post)
  {
    hide OneSimpler, OneLess;
    if OneSimpler(crash, a, b) {
      OneSimplerAround(crash, pre, a, b, post);
    } else {
      OneLessAround(pre, a, b, post);
    }
  }

  lemma LoggedAround(crash: bool, drop: bool, ans: Answers, asked: nat, pre: seq<Node>, s: seq<Node>, log: Log,
                     s1: seq<Node>, post: seq<Node>, again: bool)
    requires Logged(crash, drop, ans, asked, s, log, s1, again)
    ensures Logged(crash, drop, ans, asked, pre + s + post, Around(pre, log, post), pre + s1 + post, again)
  {
    hide Step, Accepted;
    var all := Around(pre, log, post);
    forall k | 0 <= k < |all|
      ensures Step(crash, drop, Accepted(pre + s + post, all[..k]), all[k].state)
    {
      AcceptedAround(pre, s, log, post, k);
      StepAround(crash, drop, pre, Accepted(s, log[..k]), log[k].state, post);
    }
    AcceptedAround(pre, s, log, post, |log|);
    assert all[..|log|] == all && log[..|log|] == log;
    forall k | 0 <= k < |log|
      ensures SameSize(log[k].state, s) ==> SameSize(all[k].state, pre + s + post)
      ensures NodesSeq(log[k].state) < NodesSeq(s) ==> NodesSeq(all[k].state) < NodesSeq(pre + s + post)
    {
      SizeAround(pre, log[k].state, post);
      SizeAround(pre, s, post);
    }
  }

  lemma SizeAround(pre: seq<Node>, s: seq<Node>, post: seq<Node>)
    ensures NodesSeq(pre + s + post) == NodesSeq(pre) + NodesSeq(s) + NodesSeq(post)
  {
    NodesSplit(pre + s, post);
    NodesSplit(pre, s);
  }

  lemma CountedAround(ctx: Context, ctx1: Context, pre: seq<Node>, log: Log, post: seq<Node>, blob: bool)
    requires Counted(ctx, ctx1, log, blob)
    ensures Counted(ctx, ctx1, Around(pre, log, post), blob)
  {
    var all := Around(pre, log, post);
    assert AnyYes(all) <==> AnyYes(log) by {
      if AnyYes(log) {
        var k :| 0 <= k < |log| && log[k].answer;
        assert all[k].answer;
      }
      if AnyYes(all) {
        var k :| 0 <= k < |all| && all[k].answer;
        assert log[k].answer;
      }
    }
  }

  /** A node with other parts. */
  function With(t: Node, parts: seq<Node>): Node {
    match t
    case Ptr(_, _) => t.(res := parts)
    case Array(_, _, _, _) => t.(elems := parts)
    case Struct(_, _) => t.(fields := parts)
    case _ => t
  }

  predicate HasParts(t: Node) { t.Ptr? || t.Array? || t.Struct? }

  ghost function Inside(t: Node, log: Log): (r: Log)
    ensures |r| == |log| && forall k :: 0 <= k < |log| ==> r[k] == Asked([With(t, log[k].state)], log[k].answer)
  {
    seq(|log|, k requires 0 <= k < |log| => Asked([With(t, log[k].state)], log[k].answer))
  }

  lemma {:induction false} AcceptedInside(t: Node, s: seq<Node>, log: Log, k: nat)
    requires k <= |log|
    ensures Accepted([With(t, s)], Inside(t, log)[..k]) == [With(t, Accepted(s, log[..k]))]
  {
    if k > 0 {
      AcceptedInside(t, s, log, k - 1);
      assert Inside(t, log)[..k][..k - 1] == Inside(t, log)[..k - 1];
      assert log[..k][..k - 1] == log[..k - 1];
    }
  }

  lemma LeafSize(a: Node, b: Node)
    requires !HasParts(a) && !HasParts(b)
    ensures SameSize([a], [b])
  {
    assert [a][1..] == [] && [b][1..] == [];
  }

  lemma OnlySimpler(crash: bool, a: Node, b: Node)
    requires Simpler(crash, a, b)
    ensures Step(crash, false, [a], [b])
  {
    hide Simpler;
    assert [b] == [a][0 := [b][0]];
  }

  lemma StepInside(crash: bool, drop: bool, t: Node, a: seq<Node>, b: seq<Node>)
    requires HasParts(t) && Step(crash, drop, a, b) && (drop ==> t.Array? && (t.random || |a| > t.minElems))
    ensures Step(crash, false, [With(t, a)], [With(t, b)])
  {
    hide OneSimpler, OneLess, Step;
    assert Simpler(crash, With(t, a), With(t, b)) by {
      StepIs(crash, drop, a, b);
    }
    OnlySimpler(crash, With(t, a), With(t, b));
  }

  lemma StepIs(crash: bool, drop: bool, a: seq<Node>, b: seq<Node>)
    ensures Step(crash, drop, a, b) <==> OneSimpler(crash, a, b) || (drop && !crash && OneLess(a, b))
  {
  }

  lemma LoggedInside(crash: bool, drop: bool, ans: Answers, asked: nat, t: Node, s: seq<Node>, log: Log, s1: seq<Node>,
                     again: bool)
    requires HasParts(t) && Logged(crash, drop, ans, asked, s, log, s1, again)
    requires drop ==> t.Array? && (t.random || |s| > t.minElems)
    ensures Logged(crash, false, ans, asked, [With(t, s)], Inside(t, log), [With(t, s1)], again)
  {
    hide Step, Accepted;
    var all := Inside(t, log);
    forall k | 0 <= k < |all|
      ensures Step(crash, false, Accepted([With(t, s)], all[..k]), all[k].state)
    {
      AcceptedInside(t, s, log, k);
      AcceptedSize(s, log, k);
      StepInside(crash, drop, t, Accepted(s, log[..k]), log[k].state);
    }
    AcceptedInside(t, s, log, |log|);
    assert all[..|log|] == all && log[..|log|] == log;
    SizeInside(t, s);
    forall k | 0 <= k < |log|
      ensures SameSize(log[k].state, s) ==> SameSize(all[k].state, [With(t, s)])
      ensures NodesSeq(log[k].state) < NodesSeq(s) ==> NodesSeq(all[k].state) < NodesSeq([With(t, s)])
    {
      SizeInside(t, log[k].state);
    }
  }

  lemma SizeInside(t: Node, s: seq<Node>)
    requires HasParts(t)
    ensures NodesSeq([With(t, s)]) == 1 + NodesSeq(s)
  {
    assert [With(t, s)][1..] == [];
  }

  lemma CountedInside(ctx: Context, ctx1: Context, t: Node, log: Log, blob: bool)
    requires Counted(ctx, ctx1, log, blob)
    ensures Counted(ctx, ctx1, Inside(t, log), blob)
  {
    var all := Inside(t, log);
    assert AnyYes(all) <==> AnyYes(log) by {
      if AnyYes(log) {
        var k :| 0 <= k < |log| && log[k].answer;
        assert all[k].answer;
      }
      if AnyYes(all) {
        var k :| 0 <= k < |all| && all[k].answer;
        assert log[k].answer;
      }
    }
  }

  // ---- what an attempt asks ----

  function Cut(t: Node, len: nat): Node
    requires t.Blob? && len <= |t.data|
  {
    t.(data := t.data[..len])
  }

  lemma CutStep(crash: bool, t: Node, len: nat, less: nat)
    requires t.Blob? && t.minLen <= less < len <= |t.data|
    ensures Step(crash, false, [Cut(t, len)], [Cut(t, less)])
  {
    assert t.data[..less] <= t.data[..len];
    OnlySimpler(crash, Cut(t, len), Cut(t, less));
  }

  /** Cutting asks about shorter and shorter data; a refused cut is undone. */
  lemma {:induction false} CutLogged(t: Node, len: nat, step: nat, crash: bool, ctx: Context, ans: Answers)
    returns (log: Log)
    requires t.Blob? && len <= |t.data|
    ensures var (len1, ctx1) := CutBlob(len, t.minLen, step, crash, ctx, ans);
      && Logged(crash, false, ans, ctx.asked, [Cut(t, len)], log, [Cut(t, len1)], false)
      && ctx1 == ctx.(asked := ctx.asked + |log|)
    decreases len, step
  {
    hide Logged;
    log := [];
    NoQuestion(crash, false, ans, ctx, [Cut(t, len)], false);
    if len > t.minLen && step > 0 {
      if len >= step && len - step >= t.minLen {
        var ctx1, less := ctx.(asked := ctx.asked + 1), len - step;
        CutStep(crash, t, len, less);
        LeafSize(Cut(t, less), Cut(t, len));
        OneQuestion(crash, false, ans, ctx, [Cut(t, len)], [Cut(t, less)], false);
        log := [Asked([Cut(t, less)], ans(ctx.asked))];
        var now := if ans(ctx.asked) then less else len;
        if ans(ctx.asked) || !crash {
          var step1 := if ans(ctx.asked) then step else step / 2;
          var rest := CutLogged(t, now, step1, crash, ctx1, ans);
          var len1 := CutBlob(now, t.minLen, step1, crash, ctx1, ans).0;
          Then(crash, false, ans, ctx.asked, [Cut(t, len)], log, [Cut(t, now)], rest, [Cut(t, len1)], false);
          log := log + rest;
        }
      } else if !crash {
        log := CutLogged(t, len, step / 2, crash, ctx, ans);
      }
    }
  }

  lemma {:induction false} DoLogged(t: Node, path0: string, crash: bool, ctx: Context, ans: Answers) returns (log: Log)
    ensures var (t1, ctx1, again) := Do(t, path0, crash, ctx, ans);
      Logged(crash, false, ans, ctx.asked, [t], log, [t1], again) && Counted(ctx, ctx1, log, HasBlob(t))
    decreases t, 1
  {
    hide Logged, Simplify, HasBlob;
    var path := path0 + "-" + t.name;
    if path in ctx.tried {
      log := [];
      NoQuestion(crash, false, ans, ctx, [t], HasBlob(t));
    } else {
      log := SimplifyLogged(t, path, crash, ctx, ans);
    }
  }

  lemma {:induction false} SimplifyLogged(t: Node, path: string, crash: bool, ctx: Context, ans: Answers)
    returns (log: Log)
    ensures var (t1, ctx1, again) := Simplify(t, path, crash, ctx, ans);
      Logged(crash, false, ans, ctx.asked, [t], log, [t1], again) && Counted(ctx, ctx1, log, HasBlob(t))
    decreases t, 0
  {
    hide Logged, Step, Do, DoFields, DoElems, CutBlob;
    log := [];
    NoQuestion(crash, false, ans, ctx, [t], HasBlob(t));
    match t
    case Int(_, val, default) =>
      if !crash && val != default {
        OnlySimpler(crash, t, t.(val := default));
        LeafSize(t.(val := default), t);
        OneQuestion(crash, false, ans, ctx, [t], [t.(val := default)], false);
        log := [Asked([t.(val := default)], ans(ctx.asked))];
      }
    case Res(_, value, default) =>
      if !crash && value.Linked? {
        OnlySimpler(crash, t, t.(value := Plain(default)));
        LeafSize(t.(value := Plain(default)), t);
        OneQuestion(crash, false, ans, ctx, [t], [t.(value := Plain(default))], false);
        log := [Asked([t.(value := Plain(default))], ans(ctx.asked))];
      }
    case Blob(_, data, minLen) =>
      assert Cut(t, |data|) == t by { assert data[..|data|] == data; }
      log := CutLogged(t, |data|, if |data| >= minLen then |data| - minLen else 0, crash, ctx, ans);
    case Other(_) =>
    case Ptr(_, res) => log := PointerLogged(t, path, crash, ctx, ans);
    case Array(_, elems, random, minElems) =>
      var inner := ElemsLogged(elems, |elems|, random, minElems, path, crash, ctx, ans);
      var (elems1, ctx1, again) := DoElems(elems, |elems|, |elems|, random, minElems, path, crash, ctx, ans);
      LoggedInside(crash, random || |elems| > minElems, ans, ctx.asked, t, elems, inner, elems1, again);
      CountedInside(ctx, ctx1, t, inner, SomeBlob(elems));
      log := Inside(t, inner);
    case Struct(_, fields) =>
      var inner := FieldsLogged(fields, path, crash, ctx, ans);
      var (fields1, ctx1, again) := DoFields(fields, path, crash, ctx, ans);
      LoggedInside(crash, false, ans, ctx.asked, t, fields, inner, fields1, again);
      CountedInside(ctx, ctx1, t, inner, SomeBlob(fields));
      log := Inside(t, inner);
  }

  lemma {:induction false} PointerLogged(t: Node, path: string, crash: bool, ctx: Context, ans: Answers)
    returns (log: Log)
    requires t.Ptr?
    ensures var (t1, ctx1, again) := Simplify(t, path, crash, ctx, ans);
      Logged(crash, false, ans, ctx.asked, [t], log, [t1], again) && Counted(ctx, ctx1, log, HasBlob(t))
    decreases t.res, 2
  {
    hide Logged, Step, Do;
    var res := t.res;
    log := [];
    NoQuestion(crash, false, ans, ctx, [t], HasBlob(t));
    if res != [] {
      if path + "->" !in ctx.tried {
        OnlySimpler(crash, t, t.(res := []));
        SizeInside(t, []);
        SizeInside(t, res);
        OneRemoval(crash, false, ans, ctx, [t], [t.(res := [])], HasBlob(t));
        log := [Asked([t.(res := [])], ans(ctx.asked))];
      } else {
        var inner := DoLogged(res[0], path, crash, ctx, ans);
        var (r1, ctx1, again) := Do(res[0], path, crash, ctx, ans);
        LoggedAround(crash, false, ans, ctx.asked, [], [res[0]], inner, [r1], res[1..], again);
        CountedAround(ctx, ctx1, [], inner, res[1..], HasBlob(res[0]));
        var mid := Around([], inner, res[1..]);
        assert [] + [res[0]] + res[1..] == res && [] + [r1] + res[1..] == res[0 := r1];
        LoggedInside(crash, false, ans, ctx.asked, t, res, mid, res[0 := r1], again);
        CountedInside(ctx, ctx1, t, mid, HasBlob(res[0]));
        log := Inside(t, mid);
      }
    }
  }

  lemma {:induction false} FieldsLogged(fields: seq<Node>, path: string, crash: bool, ctx: Context, ans: Answers)
    returns (log: Log)
    ensures var (fields1, ctx1, again) := DoFields(fields, path, crash, ctx, ans);
      && Logged(crash, false, ans, ctx.asked, fields, log, fields1, again)
      && Counted(ctx, ctx1, log, SomeBlob(fields))
    decreases fields, 0
  {
    hide Logged, Do, HasBlob;
    if fields == [] {
      log := [];
      NoQuestion(crash, false, ans, ctx, fields, false);
    } else {
      var f, rest := fields[0], fields[1..];
      var first := DoLogged(f, path, crash, ctx, ans);
      var (f1, ctx1, again) := Do(f, path, crash, ctx, ans);
      LoggedAround(crash, false, ans, ctx.asked, [], [f], first, [f1], rest, again);
      CountedAround(ctx, ctx1, [], first, rest, HasBlob(f));
      log := Around([], first, rest);
      assert [] + [f] + rest == fields && [] + [f1] + rest == [f1] + rest;
      if !again {
        var more := FieldsLogged(rest, path, crash, ctx1, ans);
        var (rest1, ctx2, again2) := DoFields(rest, path, crash, ctx1, ans);
        LoggedAround(crash, false, ans, ctx1.asked, [f1], rest, more, rest1, [], again2);
        CountedAround(ctx1, ctx2, [f1], more, [], SomeBlob(rest));
        assert [f1] + rest + [] == [f1] + rest && [f1] + rest1 + [] == [f1] + rest1;
        Then(crash, false, ans, ctx.asked, fields, log, [f1] + rest, Around([f1], more, []), [f1] + rest1, again2);
        assert forall i :: 0 <= i < |rest| ==> rest[i] == fields[i + 1];
        CountedThen(ctx, ctx1, ctx2, log, Around([f1], more, []), HasBlob(f), SomeBlob(rest), SomeBlob(fields));
        log := log + Around([f1], more, []);
      }
    }
  }

  lemma {:induction false} ElemsLogged(elems: seq<Node>, count: nat, random: bool, minElems: nat, path: string,
                                       crash: bool, ctx: Context, ans: Answers) returns (log: Log)
    ensures var (elems1, ctx1, again) := DoElems(elems, |elems|, count, random, minElems, path, crash, ctx, ans);
      && Logged(crash, random || count > minElems, ans, ctx.asked, elems, log, elems1, again)
      && Counted(ctx, ctx1, log, SomeBlob(elems))
    decreases elems, 0, |elems|
  {
    hide Logged, Do, HasBlob, ElemPath;
    var drop := random || count > minElems;
    if elems == [] {
      log := [];
      NoQuestion(crash, drop, ans, ctx, elems, false);
    } else {
      var n := |elems| - 1;
      var pre, e := elems[..n], elems[n];
      assert elems == pre + [e];
      LastElem(pre, e, count, random, minElems, path, crash, ctx, ans);
      hide DoElems;
      var ep := ElemPath(path, n);
      if !crash && ep !in ctx.tried && drop {
        var ctx1 := ctx.(tried := ctx.tried + {ep});
        NodesSplit(pre, [e]);
        assert OneLess(elems, pre) by { assert pre == elems[..n] + elems[n + 1..]; }
        OneRemoval(crash, drop, ans, ctx1, elems, pre, SomeBlob(elems));
        log := [Asked(pre, ans(ctx.asked))];
      } else {
        log := LastLogged(pre, e, count, random, minElems, path, crash, ctx, ans);
      }
    }
  }

  /** The last element is tried in place, then the ones before it. */
  lemma {:induction false} LastLogged(pre: seq<Node>, e: Node, count: nat, random: bool, minElems: nat, path: string,
                                      crash: bool, ctx: Context, ans: Answers) returns (log: Log)
    requires crash || ElemPath(path, |pre|) in ctx.tried || !(random || count > minElems)
    ensures var (elems1, ctx1, again) := DoElems(pre + [e], |pre| + 1, count, random, minElems, path, crash, ctx, ans);
      && Logged(crash, random || count > minElems, ans, ctx.asked, pre + [e], log, elems1, again)
      && Counted(ctx, ctx1, log, SomeBlob(pre + [e]))
    decreases pre + [e], 0, |pre|
  {
    hide Logged, Do, HasBlob, ElemPath;
    var drop, ep := random || count > minElems, ElemPath(path, |pre|);
    LastElem(pre, e, count, random, minElems, path, crash, ctx, ans);
    hide DoElems;
    var last := DoLogged(e, ep, crash, ctx, ans);
    var (e1, ctx1, again) := Do(e, ep, crash, ctx, ans);
    MayDrop(crash, drop, ans, ctx.asked, [e], last, [e1], again);
    LoggedAround(crash, drop, ans, ctx.asked, pre, [e], last, [e1], [], again);
    CountedAround(ctx, ctx1, pre, last, [], HasBlob(e));
    log := Around(pre, last, []);
    assert pre + [e] + [] == pre + [e] && pre + [e1] + [] == pre + [e1];
    assert HasBlob(e) ==> SomeBlob(pre + [e]) by { assert (pre + [e])[|pre|] == e; }
    if !again {
      var more := ElemsLogged(pre, count, random, minElems, path, crash, ctx1, ans);
      var (pre1, ctx2, again2) := DoElems(pre, |pre|, count, random, minElems, path, crash, ctx1, ans);
      LoggedAround(crash, drop, ans, ctx1.asked, [], pre, more, pre1, [e1], again2);
      CountedAround(ctx1, ctx2, [], more, [e1], SomeBlob(pre));
      assert [] + pre + [e1] == pre + [e1] && [] + pre1 + [e1] == pre1 + [e1];
      Then(crash, drop, ans, ctx.asked, pre + [e], log, pre + [e1], Around([], more, [e1]), pre1 + [e1], again2);
      assert forall i :: 0 <= i < |pre| ==> pre[i] == (pre + [e])[i];
      CountedThen(ctx, ctx1, ctx2, log, Around([], more, [e1]), HasBlob(e), SomeBlob(pre), SomeBlob(pre + [e]));
      log := log + Around([], more, [e1]);
    }
  }

  lemma MayDrop(crash: bool, drop: bool, ans: Answers, asked: nat, s: seq<Node>, log: Log, s1: seq<Node>, again: bool)
    requires Logged(crash, false, ans, asked, s, log, s1, again)
    ensures Logged(crash, drop, ans, asked, s, log, s1, again)
  {
    hide OneSimpler, OneLess, Accepted;
    forall k | 0 <= k < |log|
      ensures Step(crash, drop, Accepted(s, log[..k]), log[k].state)
    {
      assert Step(crash, false, Accepted(s, log[..k]), log[k].state);
    }
  }

  /** One pass over the arguments. */
  lemma {:induction false} ArgsLogged(args: seq<Node>, j: nat, crash: bool, ctx: Context, ans: Answers)
    returns (log: Log)
    ensures var (args1, ctx1, again) := DoArgs(args, j, crash, ctx, ans);
      && Logged(crash, false, ans, ctx.asked, args, log, args1, again)
      && Counted(ctx, ctx1, log, SomeBlob(args))
    decreases args
  {
    hide Logged, Do, HasBlob;
    if args == [] {
      log := [];
      NoQuestion(crash, false, ans, ctx, args, false);
    } else {
      var f, rest := args[0], args[1..];
      var first := DoLogged(f, Numbers.Dec(j), crash, ctx, ans);
      var (f1, ctx1, again) := Do(f, Numbers.Dec(j), crash, ctx, ans);
      LoggedAround(crash, false, ans, ctx.asked, [], [f], first, [f1], rest, again);
      CountedAround(ctx, ctx1, [], first, rest, HasBlob(f));
      log := Around([], first, rest);
      assert [] + [f] + rest == args && [] + [f1] + rest == [f1] + rest;
      if !again {
        var more := ArgsLogged(rest, j + 1, crash, ctx1, ans);
        var (rest1, ctx2, again2) := DoArgs(rest, j + 1, crash, ctx1, ans);
        LoggedAround(crash, false, ans, ctx1.asked, [f1], rest, more, rest1, [], again2);
        CountedAround(ctx1, ctx2, [f1], more, [], SomeBlob(rest));
        assert [f1] + rest + [] == [f1] + rest && [f1] + rest1 + [] == [f1] + rest1;
        Then(crash, false, ans, ctx.asked, args, log, [f1] + rest, Around([f1], more, []), [f1] + rest1, again2);
        assert forall i :: 0 <= i < |rest| ==> rest[i] == args[i + 1];
        CountedThen(ctx, ctx1, ctx2, log, Around([f1], more, []), HasBlob(f), SomeBlob(rest), SomeBlob(args));
        log := log + Around([f1], more, []);
      }
    }
  }

  // ---- whole runs ----

  /** A pass over the arguments: where it starts, what it asks, its working copy at the end, whether it ended with a
      removal and has to be repeated, and whether the working copy becomes the result. */
  datatype Pass = Pass(start: seq<Node>, log: Log, end: seq<Node>, again: bool, kept: bool)

  ghost function Outcome(p: Pass): seq<Node> { if p.kept then p.end else p.start }

  ghost predicate PassOk(crash: bool, ans: Answers, asked: nat, p: Pass) {
    && Logged(crash, false, ans, asked, p.start, p.log, p.end, p.again)
    && (AnyYes(p.log) ==> p.kept) && (p.kept ==> AnyYes(p.log) || SomeBlob(p.start))
  }

  /** Passes are repeated until one ends without a removal. */
  ghost predicate History(crash: bool, ans: Answers, asked: nat, args: seq<Node>, ps: seq<Pass>, result: seq<Node>)
    decreases ps
  {
    && ps != [] && ps[0].start == args && PassOk(crash, ans, asked, ps[0])
    && if |ps| == 1 then !ps[0].again && result == Outcome(ps[0])
       else ps[0].again && History(crash, ans, asked + |ps[0].log|, Outcome(ps[0]), ps[1..], result)
  }

  lemma PassLogged(args: seq<Node>, crash: bool, ctx: Context, ans: Answers) returns (p: Pass)
    ensures var (copy, ctx1, again) := DoArgs(args, 0, crash, ctx.(kept := false), ans);
      && p.start == args && p.end == copy && p.again == again && p.kept == ctx1.kept && PassOk(crash, ans, ctx.asked, p)
      && ctx1.asked == ctx.asked + |p.log|
  {
    hide Logged, AnyYes, SomeBlob;
    var log := ArgsLogged(args, 0, crash, ctx.(kept := false), ans);
    var (copy, ctx1, again) := DoArgs(args, 0, crash, ctx.(kept := false), ans);
    p := Pass(args, log, copy, again, ctx1.kept);
  }

  /** The questions of a whole run. */
  lemma {:induction false} RunLogged(args: seq<Node>, crash: bool, ctx: Context, ans: Answers) returns (ps: seq<Pass>)
    ensures History(crash, ans, ctx.asked, args, ps, Passes(args, crash, ctx, ans).0)
    decreases NodesSeq(args), |ArgPaths(args, 0) - ctx.tried|
  {
    hide PassOk, DoArgs;
    var p := PassLogged(args, crash, ctx, ans);
    ps := [p];
    ArgsProgress(args, 0, crash, ctx.(kept := false), ans);
    var (copy, ctx1, again) := DoArgs(args, 0, crash, ctx.(kept := false), ans);
    if again {
      LeftShrinks(ArgPaths(args, 0), ctx.tried, ctx1.tried);
      var rest := RunLogged(Outcome(p), crash, ctx1, ans);
      ps := [p] + rest;
      assert ps[1..] == rest;
    }
  }

  /** Simplifies the arguments of one call. Each pass works on a copy, which becomes the result as soon as one question
      is answered with yes; later changes of the pass then belong to the result too. The loop ends for every stream of
      answers, with every argument tried, and its questions are those of a history. */
  method MinimizeArgs(args0: seq<Node>, crash: bool, ans: Answers, asked: nat)
    returns (args: seq<Node>, ctx: Context, ghost passes: seq<Pass>)
    ensures (args, ctx) == Passes(args0, crash, Context({}, asked, false), ans)
    ensures |args| == |args0| && NodesSeq(args) <= NodesSeq(args0) && Settled(args, 0, ctx.tried)
    ensures History(crash, ans, asked, args0, passes, args)
  {
    hide DoArgs, ArgPaths, Settled, NodesSeq, History;
    args, ctx := args0, Context({}, asked, false);
    passes := RunLogged(args, crash, ctx, ans);
    ghost var all := Passes(args, crash, ctx, ans);
    var again := true;
    while again
      invariant (if again then Passes(args, crash, ctx, ans) else (args, ctx)) == all
      decreases again, NodesSeq(args), |ArgPaths(args, 0) - ctx.tried|
    {
      ghost var before := ctx.tried;
      ArgsProgress(args, 0, crash, ctx.(kept := false), ans);
      var copy;
      copy, ctx, again := Minimize.Pass(args, crash, ctx.(kept := false), ans);
      if again {
        LeftShrinks(ArgPaths(args, 0), before, ctx.tried);
      }
      if ctx.kept {
        args := copy;
      }
    }
  }

  // ---- what the answers lead to ----

  lemma {:induction false} NoYes(s: seq<Node>, log: Log)
    requires !AnyYes(log)
    ensures Accepted(s, log) == s
  {
    if log != [] {
      var n := |log| - 1;
      assert !log[n].answer;
      assert forall k :: 0 <= k < n ==> log[..n][k] == log[k];
      NoYes(s, log[..n]);
    }
  }

  /** If no question is accepted and there is no blob, nothing changes. */
  lemma {:induction false} NeverAgrees(crash: bool, ans: Answers, asked: nat, args: seq<Node>, ps: seq<Pass>,
                                       result: seq<Node>)
    requires History(crash, ans, asked, args, ps, result) && !SomeBlob(args) && forall k :: !ans(k)
    ensures result == args
    decreases ps
  {
    hide SomeBlob;
    assert !AnyYes(ps[0].log);
    if |ps| > 1 {
      NeverAgrees(crash, ans, asked + |ps[0].log|, args, ps[1..], result);
    }
  }

  /** The working copy was kept although its last question, a removal, was refused. */
  ghost predicate Spoiled(p: Pass) {
    p.kept && p.again && p.log != [] && !p.log[|p.log| - 1].answer
  }

  /** A pass leads to what was accepted last, unless it is spoiled; then to fewer nodes. */
  lemma PassLeadsTo(crash: bool, ans: Answers, asked: nat, p: Pass)
    requires PassOk(crash, ans, asked, p)
    ensures Outcome(p) == Accepted(p.start, p.log) <==> !Spoiled(p)
    ensures NodesSeq(Outcome(p)) <= NodesSeq(p.start)
    ensures Spoiled(p) ==> NodesSeq(Outcome(p)) < NodesSeq(Accepted(p.start, p.log))
  {
    hide Step, SomeBlob;
    if !AnyYes(p.log) {
      NoYes(p.start, p.log);
    }
    if p.again {
      var n := |p.log| - 1;
      AcceptedSize(p.start, p.log, n);
      if p.log[n].answer {
        assert AnyYes(p.log);
      }
    } else {
      AcceptedSize(p.start, p.log, |p.log|);
      assert p.log[..|p.log|] == p.log;
    }
  }

  /** All questions of a run. */
  ghost function AllAsked(ps: seq<Pass>): Log { if ps == [] then [] else ps[0].log + AllAsked(ps[1..]) }

  /** Some pass is spoiled and nothing was accepted afterwards. */
  ghost predicate SpoiledAtLast(ps: seq<Pass>)
    decreases ps
  {
    ps != [] && (SpoiledAtLast(ps[1..]) || (Spoiled(ps[0]) && !AnyYes(AllAsked(ps[1..]))))
  }

  lemma {:induction false} LaterYes(s: seq<Node>, s1: seq<Node>, log: Log)
    requires AnyYes(log)
    ensures Accepted(s, log) == Accepted(s1, log)
  {
    var n := |log| - 1;
    if !log[n].answer {
      var k :| 0 <= k < |log| && log[k].answer;
      assert log[..n][k].answer;
      LaterYes(s, s1, log[..n]);
    }
  }

  lemma {:induction false} NeverLarger(crash: bool, ans: Answers, asked: nat, args: seq<Node>, ps: seq<Pass>,
                                       result: seq<Node>)
    requires History(crash, ans, asked, args, ps, result)
    ensures NodesSeq(result) <= NodesSeq(args)
    decreases ps
  {
    hide PassOk, Outcome;
    PassLeadsTo(crash, ans, asked, ps[0]);
    if |ps| > 1 {
      NeverLarger(crash, ans, asked + |ps[0].log|, Outcome(ps[0]), ps[1..], result);
    }
  }

  /** The result is what was accepted last, or the start if nothing was, exactly if no pass was kept although it ended
      with a refused removal, with nothing accepted after it. */
  lemma {:induction false} LastAcceptedIff(crash: bool, ans: Answers, asked: nat, args: seq<Node>, ps: seq<Pass>,
                                           result: seq<Node>)
    requires History(crash, ans, asked, args, ps, result)
    ensures result == Accepted(args, AllAsked(ps)) <==> !SpoiledAtLast(ps)
    decreases ps
  {
    hide PassOk, Outcome, Spoiled, AnyYes, Accepted;
    var p, rest := ps[0], ps[1..];
    PassLeadsTo(crash, ans, asked, p);
    AcceptedThen(args, p.log, AllAsked(rest));
    if |ps| == 1 {
      NoneLeft(p, rest);
    } else {
      var asked1, next := asked + |p.log|, Outcome(p);
      LastAcceptedIff(crash, ans, asked1, next, rest, result);
      if AnyYes(AllAsked(rest)) {
        LaterYes(next, Accepted(args, p.log), AllAsked(rest));
      } else {
        NoYes(next, AllAsked(rest));
        NoYes(Accepted(args, p.log), AllAsked(rest));
        NeverLarger(crash, ans, asked1, next, rest, result);
      }
    }
  }

  lemma NoneLeft(p: Pass, rest: seq<Pass>)
    requires rest == []
    ensures AllAsked(rest) == [] && !AnyYes([]) && !SpoiledAtLast(rest) && forall s :: Accepted(s, []) == s
    ensures !p.again ==> !Spoiled(p)
  {
  }

  // ---- values and references ----

  /** An integer is its default after an attempt if and only if it was before or it was asked about and accepted;
      otherwise it is unchanged. It is asked about unless it has been tried, is the default, or after a crash. */
  lemma IntDecided(t: Node, path0: string, crash: bool, ctx: Context, ans: Answers)
    requires t.Int?
    ensures var (t1, ctx1, again) := Do(t, path0, crash, ctx, ans);
      var asked := !crash && t.val != t.default && path0 + "-" + t.name !in ctx.tried;
      && !again && ctx1.asked == ctx.asked + (if asked then 1 else 0)
      && t1.Int? && t1 == Int(t.name, t1.val, t.default)
      && (t1.val == t.default <==> t.val == t.default || (asked && ans(ctx.asked)))
      && (t1.val != t.default ==> t1.val == t.val)
  {
  }

  /** A resource keeps its reference if and only if it was not asked about or refused; otherwise it gets the default
      of its type. */
  lemma ResourceDecided(t: Node, path0: string, crash: bool, ctx: Context, ans: Answers)
    requires t.Res?
    ensures var (t1, ctx1, again) := Do(t, path0, crash, ctx, ans);
      var asked := !crash && t.value.Linked? && path0 + "-" + t.name !in ctx.tried;
      && !again && ctx1.asked == ctx.asked + (if asked then 1 else 0)
      && t1.Res? && t1 == Res(t.name, t1.value, t.default)
      && (t1.value == t.value <==> !asked || !ans(ctx.asked))
      && (t1.value != t.value ==> t1.value == Plain(t.default))
  {
  }

  /** The integers and resources of a tree. */
  ghost function Scalars(t: Node): multiset<Node>
    decreases t
  {
    match t
    case Int(_, _, _) => multiset{t}
    case Res(_, _, _) => multiset{t}
    case Ptr(_, res) => AllScalars(res)
    case Array(_, elems, _, _) => AllScalars(elems)
    case Struct(_, fields) => AllScalars(fields)
    case _ => multiset{}
  }

  ghost function AllScalars(ts: seq<Node>): multiset<Node>
    decreases ts
  {
    if ts == [] then multiset{} else Scalars(ts[0]) + AllScalars(ts[1..])
  }

  lemma {:induction false} ScalarsAt(ts: seq<Node>, i: nat, t: Node)
    requires i < |ts| && Scalars(t) <= Scalars(ts[i])
    ensures AllScalars(ts[i := t]) <= AllScalars(ts)
  {
    hide Scalars;
    if i == 0 {
      assert ts[0 := t][1..] == ts[1..];
    } else {
      assert ts[i := t][1..] == ts[1..][i - 1 := t];
      ScalarsAt(ts[1..], i - 1, t);
    }
  }

  lemma {:induction false} SimplerScalars(a: Node, b: Node)
    requires Simpler(true, a, b)
    ensures Scalars(b) <= Scalars(a)
    decreases a, 1
  {
    match a
    case Ptr(_, res) =>
      if OneSimpler(true, res, b.res) {
        PartsScalars(res, b.res);
      }
    case Array(_, elems, _, _) => PartsScalars(elems, b.elems);
    case Struct(_, fields) => PartsScalars(fields, b.fields);
    case _ =>
  }

  lemma {:induction false} PartsScalars(a: seq<Node>, b: seq<Node>)
    requires OneSimpler(true, a, b)
    ensures AllScalars(b) <= AllScalars(a)
    decreases a, 0
  {
    hide Simpler;
    var i :| 0 <= i < |a| && b == a[i := b[i]] && Simpler(true, a[i], b[i]);
    SimplerScalars(a[i], b[i]);
    ScalarsAt(a, i, b[i]);
  }

  lemma {:induction false} LogScalars(ans: Answers, asked: nat, s: seq<Node>, log: Log, k: nat)
    requires k <= |log| && forall j :: 0 <= j < |log| ==> Step(true, false, Accepted(s, log[..j]), log[j].state)
    ensures AllScalars(Accepted(s, log[..k])) <= AllScalars(s)
  {
    hide OneSimpler, AllScalars;
    if k > 0 {
      LogScalars(ans, asked, s, log, k - 1);
      assert log[..k][..k - 1] == log[..k - 1];
      assert Step(true, false, Accepted(s, log[..k - 1]), log[k - 1].state);
      PartsScalars(Accepted(s, log[..k - 1]), log[k - 1].state);
    }
  }

  /** After a crash no integer and no resource changes: those of the result are among those of the start. */
  lemma {:induction false} CrashKeepsValues(ans: Answers, asked: nat, args: seq<Node>, ps: seq<Pass>, result: seq<Node>)
    requires History(true, ans, asked, args, ps, result)
    ensures AllScalars(result) <= AllScalars(args)
    decreases ps
  {
    hide AllScalars, PassOk, Outcome;
    PassScalars(ans, asked, ps[0]);
    if |ps| > 1 {
      CrashKeepsValues(ans, asked + |ps[0].log|, Outcome(ps[0]), ps[1..], result);
    }
  }

  lemma PassScalars(ans: Answers, asked: nat, p: Pass)
    requires PassOk(true, ans, asked, p)
    ensures AllScalars(Outcome(p)) <= AllScalars(p.start)
  {
    hide AllScalars, OneSimpler, AnyYes, SomeBlob, Accepted, SameSize;
    LogScalars(ans, asked, p.start, p.log, |p.log|);
    assert p.log[..|p.log|] == p.log;
    if p.again {
      var n := |p.log| - 1;
      LogScalars(ans, asked, p.start, p.log, n);
      assert Step(true, false, Accepted(p.start, p.log[..n]), p.log[n].state);
      PartsScalars(Accepted(p.start, p.log[..n]), p.log[n].state);
    }
  }
}
