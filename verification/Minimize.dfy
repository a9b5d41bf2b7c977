/** Minimisation of programs. First calls are removed one by one; then the arguments of each call are
    simplified in passes that restart after every structural change. The answers of the predicate are
    arbitrary: an infinite stream, consumed in order. */
module Minimize {
  import opened Numbers
  import opened Sets

  // ---- arguments ----

  /** A resource refers to a result or has a value of its own. */
  datatype Resource = Linked(result: nat) | Plain(val: nat)

  /** What minimisation sees of an argument: its field name, its kind, and its value or parts. A union is a struct
      with its option as the only field. */
  datatype Node =
    | Int(name: string, val: nat, default: nat)
    | Res(name: string, value: Resource, default: nat)
    | Blob(name: string, data: seq<nat>, minLen: nat)
    | Other(name: string)
    | Ptr(name: string, res: seq<Node>)                       // at most one pointee
    | Array(name: string, elems: seq<Node>, random: bool, minElems: nat)
    | Struct(name: string, fields: seq<Node>)

  /** `tried` are the paths that need not be tried again; `asked` counts the questions to the
      predicate; `kept` says that the working copy has become the result. */
  datatype Context = Context(tried: set<string>, asked: nat, kept: bool)

  type Answers = nat -> bool

  function Ask(ctx: Context, ans: Answers): Context { ctx.(asked := ctx.asked + 1, kept := ctx.kept || ans(ctx.asked)) }

  /** A blob is cut by ever smaller steps as long as the predicate agrees. */
  function CutBlob(len: nat, minLen: nat, step: nat, crash: bool, ctx: Context, ans: Answers): (r: (nat, Context))
    ensures r.0 <= len && (minLen <= len ==> minLen <= r.0) && r.1.tried == ctx.tried
    decreases len, step
  {
    if !(len > minLen && step > 0) then (len, ctx)
    else if len >= step && len - step >= minLen then
      var ctx1 := ctx.(asked := ctx.asked + 1);
      if ans(ctx.asked) then CutBlob(len - step, minLen, step, crash, ctx1, ans)
      else if crash then (len, ctx1)
      else CutBlob(len, minLen, step / 2, crash, ctx1, ans)
    else if crash then (len, ctx)
    else CutBlob(len, minLen, step / 2, crash, ctx, ans)
  }

  /** The cutting loop. */
  method CutData(data0: seq<nat>, minLen: nat, crash: bool, ctx0: Context, ans: Answers)
    returns (data: seq<nat>, ctx: Context)
    ensures data <= data0 && (minLen <= |data0| ==> minLen <= |data|)
    ensures (|data|, ctx) == CutBlob(|data0|, minLen, if |data0| >= minLen then |data0| - minLen else 0, crash, ctx0,
                                     ans)
  {
    data, ctx := data0, ctx0;
    var step := |data| - minLen;
    ghost var all := CutBlob(|data0|, minLen, if step >= 0 then step else 0, crash, ctx0, ans);
    while |data| > minLen && step > 0
      invariant data <= data0 && CutBlob(|data|, minLen, if step >= 0 then step else 0, crash, ctx, ans) == all
      decreases |data|, step
    {
      if |data| - step >= minLen {
        var ok := ans(ctx.asked);
        ctx := ctx.(asked := ctx.asked + 1);
        if ok {
          data := data[..|data| - step];
          continue;
        }
      }
      step := step / 2;
      if crash {
        break;
      }
    }
  }

  /** Tries to simplify an argument; the flag asks for a restart. */
  function Do(t: Node, path0: string, crash: bool, ctx: Context, ans: Answers): (Node, Context, bool)
    decreases t, 1
  {
    var path := path0 + "-" + t.name;
    if path in ctx.tried then (t, ctx, false)
    else
      var (t1, ctx1, again) := Simplify(t, path, crash, ctx, ans);
      (t1, if again then ctx1 else ctx1.(tried := ctx1.tried + {path}), again)
  }

  function Simplify(t: Node, path: string, crash: bool, ctx: Context, ans: Answers): (Node, Context, bool)
    decreases t, 0
  {
    match t
    case Int(_, val, default) =>
      if crash || val == default then (t, ctx, false)
      else (if ans(ctx.asked) then t.(val := default) else t, Ask(ctx, ans), false)
    case Res(_, value, default) =>
      if crash || value.Plain? then (t, ctx, false)
      else (if ans(ctx.asked) then t.(value := Plain(default)) else t, Ask(ctx, ans), false)
    case Blob(_, data, minLen) =>
      var (len, ctx1) := CutBlob(|data|, minLen, if |data| >= minLen then |data| - minLen else 0, crash, ctx, ans);
      (t.(data := data[..len]), ctx1.(kept := true), false)
    case Other(_) => (t, ctx, false)
    case Ptr(_, res) =>
      if res == [] then (t, ctx, false)
      else if path + "->" !in ctx.tried then
        var ctx1 := Ask(ctx, ans);
        (t.(res := []), ctx1.(tried := ctx1.tried + {path + "->"}), true)
      else
        var (r1, ctx1, again) := Do(res[0], path, crash, ctx, ans);
        (t.(res := res[0 := r1]), ctx1, again)
    case Array(_, elems, random, minElems) =>
      var (elems1, ctx1, again) := DoElems(elems, |elems|, |elems|, random, minElems, path, crash, ctx, ans);
      (t.(elems := elems1), ctx1, again)
    case Struct(_, fields) =>
      var (fields1, ctx1, again) := DoFields(fields, path, crash, ctx, ans);
      (t.(fields := fields1), ctx1, again)
  }

  function DoFields(fields: seq<Node>, path: string, crash: bool, ctx: Context, ans: Answers): (seq<Node>, Context,
      bool)
    decreases fields, 0
  {
    if fields == [] then (fields, ctx, false)
    else
      var (f1, ctx1, again) := Do(fields[0], path, crash, ctx, ans);
      if again then ([f1] + fields[1..], ctx1, true)
      else
        var (rest, ctx2, again2) := DoFields(fields[1..], path, crash, ctx1, ans);
        ([f1] + rest, ctx2, again2)
  }

  function ElemPath(path: string, i: nat): string { path + "-" + Dec(i) }

  /** Elements below n of an array of `count`, from the last to the first: each is removed if that is allowed, or
      simplified. */
  function DoElems(elems: seq<Node>, n: nat, count: nat, random: bool, minElems: nat, path: string, crash: bool,
                   ctx: Context, ans: Answers): (seq<Node>, Context, bool)
    requires n <= |elems|
    decreases elems, 0, n
  {
    if n == 0 then (elems, ctx, false)
    else
      var i := n - 1;
      if !crash && ElemPath(path, i) !in ctx.tried && (random || count > minElems) then
        (elems[..i] + elems[i + 1..], Ask(ctx.(tried := ctx.tried + {ElemPath(path, i)}), ans), true)
      else
        var (e1, ctx1, again) := Do(elems[i], ElemPath(path, i), crash, ctx, ans);
        if again then (elems[i := e1], ctx1, true)
        else
          var (rest, ctx2, again2) := DoElems(elems[..i], i, count, random, minElems, path, crash, ctx1, ans);
          (rest + [e1] + elems[i + 1..], ctx2, again2)
  }

  // ---- the measure ----

  function Nodes(t: Node): (n: nat)
    ensures n > 0
    decreases t, 0
  {
    match t
    case Ptr(_, res) => 1 + NodesSeq(res)
    case Array(_, elems, _, _) => 1 + NodesSeq(elems)
    case Struct(_, fields) => 1 + NodesSeq(fields)
    case _ => 1
  }

  function NodesSeq(ts: seq<Node>): nat
    decreases ts
  {
    if ts == [] then 0 else Nodes(ts[0]) + NodesSeq(ts[1..])
  }

  /** All paths that may come up for a tree. */
  function Paths(t: Node, path0: string): set<string>
    decreases t, 0
  {
    var path := path0 + "-" + t.name;
    {path} +
    match t
    case Ptr(_, res) => {path + "->"} + PathsSeq(res, path)
    case Array(_, elems, _, _) => ElemPaths(elems, 0, path)
    case Struct(_, fields) => PathsSeq(fields, path)
    case _ => {}
  }

  function PathsSeq(ts: seq<Node>, path: string): set<string>
    decreases ts
  {
    if ts == [] then {} else Paths(ts[0], path) + PathsSeq(ts[1..], path)
  }

  /** The paths of array elements that start at index i. */
  function ElemPaths(ts: seq<Node>, i: nat, path: string): set<string>
    decreases ts
  {
    if ts == [] then {} else {ElemPath(path, i)} + Paths(ts[0], ElemPath(path, i)) + ElemPaths(ts[1..], i + 1, path)
  }

  lemma {:induction false} NodesSplit(a: seq<Node>, b: seq<Node>)
    ensures NodesSeq(a + b) == NodesSeq(a) + NodesSeq(b)
  {
    if a == [] {
      assert a + b == b;
    } else {
      assert (a + b)[0] == a[0] && (a + b)[1..] == a[1..] + b;
      NodesSplit(a[1..], b);
    }
  }

  lemma {:induction false} ElemPathsSplit(a: seq<Node>, b: seq<Node>, i: nat, path: string)
    ensures ElemPaths(a + b, i, path) == ElemPaths(a, i, path) + ElemPaths(b, i + |a|, path)
    decreases a
  {
    hide Paths, ElemPath;
    if a == [] {
      assert a + b == b;
    } else {
      assert (a + b)[0] == a[0] && (a + b)[1..] == a[1..] + b;
      ElemPathsSplit(a[1..], b, i + 1, path);
    }
  }

  /** An attempt either keeps the shape, or asks for a restart: then the tree is smaller and a path of
      the tree that was not tried before has been. */
  ghost predicate Progress(n: nat, paths: set<string>, tried: set<string>, n1: nat, paths1: set<string>,
                           tried1: set<string>, again: bool) {
    && tried <= tried1
    && (!again ==> n1 == n && paths1 == paths)
    && (again ==> n1 < n && exists p :: p in paths && p !in tried && p in tried1)
  }

  /** Progress in a part is progress in the whole. */
  lemma ProgressWithin(n: nat, paths: set<string>, tried: set<string>, n1: nat, paths1: set<string>,
                       tried1: set<string>, again: bool, others: nat, more: set<string>)
    requires Progress(n, paths, tried, n1, paths1, tried1, again)
    ensures Progress(n + others, paths + more, tried, n1 + others, paths1 + more, tried1, again)
  {
  }

  lemma {:induction false} DoProgress(t: Node, path0: string, crash: bool, ctx: Context, ans: Answers)
    ensures var (t1, ctx1, again) := Do(t, path0, crash, ctx, ans);
      t1.name == t.name && Progress(Nodes(t), Paths(t, path0), ctx.tried, Nodes(t1), Paths(t1, path0), ctx1.tried,
                                    again)
    decreases t, 1
  {
    var path := path0 + "-" + t.name;
    if path !in ctx.tried {
      SimplifyProgress(t, path0, crash, ctx, ans);
    }
  }

  lemma {:induction false} SimplifyProgress(t: Node, path0: string, crash: bool, ctx: Context, ans: Answers)
    ensures var (t1, ctx1, again) := Simplify(t, path0 + "-" + t.name, crash, ctx, ans);
      t1.name == t.name && Progress(Nodes(t), Paths(t, path0), ctx.tried, Nodes(t1), Paths(t1, path0), ctx1.tried,
                                    again)
    decreases t, 0
  {
    hide CutBlob;
    var path := path0 + "-" + t.name;
    match t
    case Ptr(_, res) => PointerProgress(t, path0, crash, ctx, ans);
    case Array(_, elems, random, minElems) =>
      ElemsProgress(elems, |elems|, |elems|, random, minElems, path, crash, ctx, ans);
    case Struct(_, fields) =>
      FieldsProgress(fields, path, crash, ctx, ans);
    case _ =>
  }

  lemma {:induction false} PointerProgress(t: Node, path0: string, crash: bool, ctx: Context, ans: Answers)
    requires t.Ptr?
    ensures var (t1, ctx1, again) := Simplify(t, path0 + "-" + t.name, crash, ctx, ans);
      t1.name == t.name && Progress(Nodes(t), Paths(t, path0), ctx.tried, Nodes(t1), Paths(t1, path0), ctx1.tried,
                                    again)
    decreases t.res, 2
  {
    hide Do;
    var path, res := path0 + "-" + t.name, t.res;
    var (t1, ctx1, again) := Simplify(t, path, crash, ctx, ans);
    if res != [] {
      if path + "->" !in ctx.tried {
        assert path + "->" in Paths(t, path0) && path + "->" in ctx1.tried;
      } else {
        DoProgress(res[0], path, crash, ctx, ans);
        var r1 := Do(res[0], path, crash, ctx, ans).0;
        assert t1.res[0] == r1 && t1.res[1..] == res[1..];
        ProgressWithin(Nodes(res[0]), Paths(res[0], path), ctx.tried, Nodes(r1), Paths(r1, path), ctx1.tried, again,
                       1 + NodesSeq(res[1..]), {path, path + "->"} + PathsSeq(res[1..], path));
        assert Paths(t, path0) == Paths(res[0], path) + ({path, path + "->"} + PathsSeq(res[1..], path));
        assert Paths(t1, path0) == Paths(r1, path) + ({path, path + "->"} + PathsSeq(res[1..], path));
      }
    }
  }

  lemma {:induction false} FieldsProgress(fields: seq<Node>, path: string, crash: bool, ctx: Context, ans: Answers)
    ensures var (fields1, ctx1, again) := DoFields(fields, path, crash, ctx, ans);
      Progress(NodesSeq(fields), PathsSeq(fields, path), ctx.tried, NodesSeq(fields1), PathsSeq(fields1, path),
               ctx1.tried, again)
    decreases fields, 0
  {
    hide Do, Nodes, Paths;
    if fields != [] {
      DoProgress(fields[0], path, crash, ctx, ans);
      var (f1, ctx1, again) := Do(fields[0], path, crash, ctx, ans);
      if !again {
        FieldsProgress(fields[1..], path, crash, ctx1, ans);
        var (rest, ctx2, again2) := DoFields(fields[1..], path, crash, ctx1, ans);
        assert ([f1] + rest)[1..] == rest;
      } else {
        assert ([f1] + fields[1..])[1..] == fields[1..];
      }
    }
  }

  lemma {:induction false} ElemsProgress(elems: seq<Node>, n: nat, count: nat, random: bool, minElems: nat,
                                         path: string, crash: bool, ctx: Context, ans: Answers)
    requires n == |elems|
    ensures var (elems1, ctx1, again) := DoElems(elems, n, count, random, minElems, path, crash, ctx, ans);
      Progress(NodesSeq(elems), ElemPaths(elems, 0, path), ctx.tried, NodesSeq(elems1), ElemPaths(elems1, 0, path),
               ctx1.tried, again)
    decreases elems, 0, n
  {
    if n == 0 {
      assert elems == [];
    } else {
      var i := n - 1;
      var pre, e, ep := elems[..i], elems[i], ElemPath(path, i);
      assert elems == pre + [e];
      NodesSplit(pre, [e]);
      ElemPathsSplit(pre, [e], 0, path);
      OneElem(e, i, path);
      LastElem(pre, e, count, random, minElems, path, crash, ctx, ans);
      hide Do, DoElems, Nodes, Paths, ElemPath, NodesSeq, ElemPaths, Progress;
      if !crash && ep !in ctx.tried && (random || count > minElems) {
        Dropped(NodesSeq(pre), Nodes(e), ElemPaths(elems, 0, path), ctx.tried, ElemPaths(pre, 0, path), ep);
      } else {
        DoProgress(e, ep, crash, ctx, ans);
        var (e1, ctx1, again) := Do(e, ep, crash, ctx, ans);
        if again {
          ElemRestarts(pre, e, e1, path, ctx.tried, ctx1.tried);
        } else {
          ElemsProgress(pre, i, count, random, minElems, path, crash, ctx1, ans);
          ElemsLength(pre, i, count, random, minElems, path, crash, ctx1, ans);
          var (rest, ctx2, again2) := DoElems(pre, i, count, random, minElems, path, crash, ctx1, ans);
          ElemContinues(pre, e, e1, rest, path, ctx.tried, ctx1.tried, ctx2.tried, again2);
        }
      }
    }
  }

  /** What happens to the last element of a list. */
  lemma LastElem(pre: seq<Node>, e: Node, count: nat, random: bool, minElems: nat, path: string, crash: bool,
                 ctx: Context, ans: Answers)
    ensures var ep := ElemPath(path, |pre|);
      DoElems(pre + [e], |pre| + 1, count, random, minElems, path, crash, ctx, ans) ==
      if !crash && ep !in ctx.tried && (random || count > minElems)
        then (pre, Ask(ctx.(tried := ctx.tried + {ep}), ans), true)
      else
        var (e1, ctx1, again) := Do(e, ep, crash, ctx, ans);
        if again then (pre + [e1], ctx1, true)
        else
          var (rest, ctx2, again2) := DoElems(pre, |pre|, count, random, minElems, path, crash, ctx1, ans);
          (rest + [e1], ctx2, again2)
  {
    hide Do, ElemPath;
    var elems, i := pre + [e], |pre|;
    assert elems[i] == e && elems[..i] == pre && elems[i + 1..] == [] && pre + [] == pre;
    var (e1, ctx1, again) := Do(e, ElemPath(path, i), crash, ctx, ans);
    assert elems[i := e1] == pre + [e1];
    var rest := DoElems(pre, i, count, random, minElems, path, crash, ctx1, ans).0;
    assert rest + [e1] + [] == rest + [e1];
  }

  lemma ElemRestarts(pre: seq<Node>, e: Node, e1: Node, path: string, tried: set<string>, tried1: set<string>)
    requires var ep := ElemPath(path, |pre|);
      Progress(Nodes(e), Paths(e, ep), tried, Nodes(e1), Paths(e1, ep), tried1, true)
    ensures Progress(NodesSeq(pre + [e]), ElemPaths(pre + [e], 0, path), tried, NodesSeq(pre + [e1]),
                     ElemPaths(pre + [e1], 0, path), tried1, true)
  {
    hide Nodes, Paths, ElemPath, NodesSeq, ElemPaths, Progress;
    var ep := ElemPath(path, |pre|);
    NodesSplit(pre, [e]);
    NodesSplit(pre, [e1]);
    ElemPathsSplit(pre, [e], 0, path);
    ElemPathsSplit(pre, [e1], 0, path);
    OneElem(e, |pre|, path);
    OneElem(e1, |pre|, path);
    ElemAgain(NodesSeq(pre), ElemPaths(pre, 0, path), Nodes(e), Paths(e, ep), tried, Nodes(e1), Paths(e1, ep), tried1,
              ep);
  }

  lemma ElemContinues(pre: seq<Node>, e: Node, e1: Node, rest: seq<Node>, path: string, tried: set<string>,
                      tried1: set<string>, tried2: set<string>, again: bool)
    requires var ep := ElemPath(path, |pre|);
      Progress(Nodes(e), Paths(e, ep), tried, Nodes(e1), Paths(e1, ep), tried1, false)
    requires Progress(NodesSeq(pre), ElemPaths(pre, 0, path), tried1, NodesSeq(rest), ElemPaths(rest, 0, path), tried2,
                      again)
    requires !again ==> |rest| == |pre|
    ensures Progress(NodesSeq(pre + [e]), ElemPaths(pre + [e], 0, path), tried, NodesSeq(rest + [e1]),
                     ElemPaths(rest + [e1], 0, path), tried2, again)
  {
    hide Nodes, Paths, ElemPath, NodesSeq, ElemPaths;
    NodesSplit(pre, [e]);
    ElemPathsSplit(pre, [e], 0, path);
    OneElem(e, |pre|, path);
    NodesSplit(rest, [e1]);
    OneElem(e1, |rest|, path);
    if again {
      var p :| p in ElemPaths(pre, 0, path) && p !in tried1 && p in tried2;
      assert p in ElemPaths(pre + [e], 0, path) && p !in tried;
    } else {
      ElemPathsSplit(rest, [e1], 0, path);
    }
  }

  lemma Dropped(others: nat, n: nat, paths: set<string>, tried: set<string>, paths1: set<string>, ep: string)
    requires n > 0 && ep in paths && ep !in tried
    ensures Progress(others + n, paths, tried, others, paths1, tried + {ep}, true)
  {
  }

  lemma ElemAgain(others: nat, before: set<string>, n: nat, paths: set<string>, tried: set<string>, n1: nat,
                  paths1: set<string>, tried1: set<string>, ep: string)
    requires Progress(n, paths, tried, n1, paths1, tried1, true)
    ensures Progress(others + n, before + ({ep} + paths), tried, others + n1, before + ({ep} + paths1), tried1, true)
  {
  }

  lemma OneElem(e: Node, i: nat, path: string)
    ensures NodesSeq([e]) == Nodes(e) > 0
    ensures ElemPaths([e], i, path) == {ElemPath(path, i)} + Paths(e, ElemPath(path, i))
  {
    assert [e][1..] == [];
  }

  lemma {:induction false} ElemsLength(elems: seq<Node>, n: nat, count: nat, random: bool, minElems: nat, path: string,
                                       crash: bool, ctx: Context, ans: Answers)
    requires n <= |elems|
    ensures var (elems1, _, again) := DoElems(elems, n, count, random, minElems, path, crash, ctx, ans);
      !again ==> |elems1| == |elems|
    decreases elems, 0, n
  {
    if n > 0 {
      var i := n - 1;
      ElemsLength(elems[..i], i, count, random, minElems, path, crash,
                  Do(elems[i], ElemPath(path, i), crash, ctx, ans).1, ans);
    }
  }

  // ---- the restart loop ----

  /** One pass over the arguments from index j on. */
  function DoArgs(args: seq<Node>, j: nat, crash: bool, ctx: Context, ans: Answers): (seq<Node>, Context, bool)
    decreases args
  {
    if args == [] then (args, ctx, false)
    else
      var (a1, ctx1, again) := Do(args[0], Dec(j), crash, ctx, ans);
      if again then ([a1] + args[1..], ctx1, true)
      else
        var (rest, ctx2, again2) := DoArgs(args[1..], j + 1, crash, ctx1, ans);
        ([a1] + rest, ctx2, again2)
  }

  function ArgPaths(args: seq<Node>, j: nat): set<string>
    decreases args
  {
    if args == [] then {} else Paths(args[0], Dec(j)) + ArgPaths(args[1..], j + 1)
  }

  /** Every argument has been tried. */
  predicate Settled(args: seq<Node>, j: nat, tried: set<string>)
    decreases args
  {
    args == [] || (Dec(j) + "-" + args[0].name in tried && Settled(args[1..], j + 1, tried))
  }

  lemma {:induction false} ArgsProgress(args: seq<Node>, j: nat, crash: bool, ctx: Context, ans: Answers)
    ensures var (args1, ctx1, again) := DoArgs(args, j, crash, ctx, ans);
      && Progress(NodesSeq(args), ArgPaths(args, j), ctx.tried, NodesSeq(args1), ArgPaths(args1, j), ctx1.tried, again)
      && |args1| == |args| && (forall i :: 0 <= i < |args| ==> args1[i].name == args[i].name)
      && (!again ==> Settled(args1, j, ctx1.tried))
    decreases args
  {
    if args != [] {
      DoTried(args[0], Dec(j), crash, ctx, ans);
      DoProgress(args[0], Dec(j), crash, ctx, ans);
      hide Do, Nodes, Paths, Dec;
      var (a1, ctx1, again) := Do(args[0], Dec(j), crash, ctx, ans);
      if !again {
        ArgsProgress(args[1..], j + 1, crash, ctx1, ans);
        var (rest, ctx2, again2) := DoArgs(args[1..], j + 1, crash, ctx1, ans);
        assert ([a1] + rest)[1..] == rest;
      } else {
        assert ([a1] + args[1..])[1..] == args[1..];
      }
    }
  }

  lemma DoTried(t: Node, path0: string, crash: bool, ctx: Context, ans: Answers)
    ensures var (t1, ctx1, again) := Do(t, path0, crash, ctx, ans); !again ==> path0 + "-" + t.name in ctx1.tried
  {
  }

  lemma LeftShrinks(paths: set<string>, tried: set<string>, tried1: set<string>)
    requires tried <= tried1 && exists p :: p in paths && p !in tried && p in tried1
    ensures |paths - tried1| < |paths - tried|
  {
    var p :| p in paths && p !in tried && p in tried1;
    assert paths - tried1 <= paths - tried - {p};
    SubsetSize(paths - tried1, paths - tried - {p});
  }

  /** What repeated passes lead to: a pass that keeps its working copy continues from it, any other
      from where it started. A restart makes the result smaller or leaves fewer paths to try. */
  ghost function Passes(args: seq<Node>, crash: bool, ctx: Context, ans: Answers): (r: (seq<Node>, Context))
    ensures |r.0| == |args| && NodesSeq(r.0) <= NodesSeq(args) && Settled(r.0, 0, r.1.tried)
    decreases NodesSeq(args), |ArgPaths(args, 0) - ctx.tried|
  {
    ArgsProgress(args, 0, crash, ctx.(kept := false), ans);
    var (copy, ctx1, again) := DoArgs(args, 0, crash, ctx.(kept := false), ans);
    var next := if ctx1.kept then copy else args;
    if again then
      LeftShrinks(ArgPaths(args, 0), ctx.tried, ctx1.tried);
      Passes(next, crash, ctx1, ans)
    else
      UnkeptSettled(args, copy, 0, ctx1.tried);
      (next, ctx1)
  }

  /** One pass over the arguments of a call. */
  method Pass(args0: seq<Node>, crash: bool, ctx0: Context, ans: Answers)
    returns (args: seq<Node>, ctx: Context, again: bool)
    ensures (args, ctx, again) == DoArgs(args0, 0, crash, ctx0, ans)
  {
    hide Do, DoArgs, Dec, Resumed;
    args, ctx, again := args0, ctx0, false;
    ghost var pre: seq<Node> := [];
    ResumedAtFirst(args0, crash, ctx0, ans);
    for j := 0 to |args0|
      invariant |pre| == j && args == pre + args0[j..] && !again
      invariant Resumed(args0, j, pre, crash, ctx, ans) == DoArgs(args0, 0, crash, ctx0, ans)
    {
      ResumedNext(args0, j, pre, crash, ctx, ans);
      assert args[j] == args0[j];
      var a1;
      a1, ctx, again := DoOne(args[j], Dec(j), crash, ctx, ans);
      args := args[j := a1];
      pre := pre + [a1];
      assert args == pre + args0[j + 1..];
      if again {
        return;
      }
    }
    ResumedAtLast(args0, pre, crash, ctx, ans);
  }

  /** What a pass leads to when the arguments before j have become `pre`. */
  ghost function Resumed(args0: seq<Node>, j: nat, pre: seq<Node>, crash: bool, ctx: Context, ans: Answers)
    : (seq<Node>, Context, bool)
    requires j <= |args0|
  {
    var (rest, ctx1, again) := DoArgs(args0[j..], j, crash, ctx, ans);
    (pre + rest, ctx1, again)
  }

  lemma ResumedAtFirst(args0: seq<Node>, crash: bool, ctx: Context, ans: Answers)
    ensures Resumed(args0, 0, [], crash, ctx, ans) == DoArgs(args0, 0, crash, ctx, ans) && args0[0..] == args0
      && [] + args0[0..] == args0
  {
    hide DoArgs;
    assert args0[0..] == args0;
    var rest := DoArgs(args0, 0, crash, ctx, ans).0;
    assert [] + rest == rest;
  }

  lemma ResumedNext(args0: seq<Node>, j: nat, pre: seq<Node>, crash: bool, ctx: Context, ans: Answers)
    requires j < |args0|
    ensures var (a1, ctx1, again) := Do(args0[j], Dec(j), crash, ctx, ans);
      Resumed(args0, j, pre, crash, ctx, ans) ==
      if again then (pre + [a1] + args0[j + 1..], ctx1, true)
      else Resumed(args0, j + 1, pre + [a1], crash, ctx1, ans)
  {
    ArgsAt(args0, j, crash, ctx, ans);
    hide Do, DoArgs, Dec;
    var (a1, ctx1, again) := Do(args0[j], Dec(j), crash, ctx, ans);
    var rest := if again then args0[j + 1..] else DoArgs(args0[j + 1..], j + 1, crash, ctx1, ans).0;
    assert pre + ([a1] + rest) == pre + [a1] + rest;
  }

  lemma ResumedAtLast(args0: seq<Node>, pre: seq<Node>, crash: bool, ctx: Context, ans: Answers)
    requires |pre| == |args0|
    ensures Resumed(args0, |args0|, pre, crash, ctx, ans) == (pre, ctx, false) && pre + args0[|args0|..] == pre
  {
    ArgsEnd(args0, crash, ctx, ans);
    hide DoArgs;
    assert pre + [] == pre && args0[|args0|..] == [];
  }

  lemma ArgsAt(args0: seq<Node>, j: nat, crash: bool, ctx: Context, ans: Answers)
    requires j < |args0|
    ensures var (a1, ctx1, again) := Do(args0[j], Dec(j), crash, ctx, ans);
      DoArgs(args0[j..], j, crash, ctx, ans) ==
      if again then ([a1] + args0[j + 1..], ctx1, true)
      else
        var (rest, ctx2, again2) := DoArgs(args0[j + 1..], j + 1, crash, ctx1, ans);
        ([a1] + rest, ctx2, again2)
  {
    hide Do, Dec;
    assert args0[j..][0] == args0[j] && args0[j..][1..] == args0[j + 1..];
  }

  lemma ArgsEnd(args0: seq<Node>, crash: bool, ctx: Context, ans: Answers)
    ensures DoArgs(args0[|args0|..], |args0|, crash, ctx, ans) == ([], ctx, false)
  {
  }

  method DoOne(t: Node, path: string, crash: bool, ctx: Context, ans: Answers)
    returns (t1: Node, ctx1: Context, again: bool)
    ensures (t1, ctx1, again) == Do(t, path, crash, ctx, ans)
  {
    var r := Do(t, path, crash, ctx, ans);
    return r.0, r.1, r.2;
  }

  /** The names of the arguments are kept, so that the copy is as settled as the original. */
  lemma {:induction false} UnkeptSettled(args: seq<Node>, copy: seq<Node>, j: nat, tried: set<string>)
    requires |args| == |copy| && Settled(copy, j, tried) && forall i :: 0 <= i < |args| ==> args[i].name == copy[i].name
    ensures Settled(args, j, tried)
    decreases args
  {
    if args != [] {
      UnkeptSettled(args[1..], copy[1..], j + 1, tried);
    }
  }
}
