/** Minimisation of arguments when every simplification is accepted. As long as no two arguments share a path,
    everything that can be simplified is; of two that do, only the first is tried. */
module MinimizeAgreed {
  import opened Minimize
  import opened MinimizeLog
  import opened Numbers

  /** Nothing is left to simplify. */
  predicate Minimal(t: Node)
    decreases t, 0
  {
    match t
    case Int(_, val, default) => val == default
    case Res(_, value, _) => value.Plain?
    case Blob(_, data, minLen) => |data| <= minLen
    case Other(_) => true
    case Ptr(_, res) => res == []
    case Array(_, elems, random, minElems) =>
      AllMinimal(elems) && (random ==> elems == []) && (elems != [] ==> |elems| <= minElems)
    case Struct(_, fields) => AllMinimal(fields)
  }

  predicate AllMinimal(ts: seq<Node>)
    decreases ts
  {
    ts == [] || (Minimal(ts[0]) && AllMinimal(ts[1..]))
  }

  // ---- paths ----

  /** No path comes up twice in the tree. */
  predicate Unique(t: Node, path0: string)
    decreases t, 0
  {
    var path := path0 + "-" + t.name;
    match t
    case Ptr(_, res) =>
      && path !in PathsSeq(res, path) && path + "->" !in PathsSeq(res, path)
      && UniqueSeq(res, path)
    case Array(_, elems, _, _) => path !in ElemPaths(elems, 0, path) && UniqueElems(elems, 0, path)
    case Struct(_, fields) => path !in PathsSeq(fields, path) && UniqueSeq(fields, path)
    case _ => true
  }

  predicate UniqueSeq(ts: seq<Node>, path: string)
    decreases ts
  {
    ts == [] || (Unique(ts[0], path) && Paths(ts[0], path) !! PathsSeq(ts[1..], path) && UniqueSeq(ts[1..], path))
  }

  predicate UniqueElems(ts: seq<Node>, i: nat, path: string)
    decreases ts
  {
    ts == [] ||
    (var ep := ElemPath(path, i);
     && Unique(ts[0], ep) && ep !in Paths(ts[0], ep)
     && {ep} + Paths(ts[0], ep) !! ElemPaths(ts[1..], i + 1, path) && UniqueElems(ts[1..], i + 1, path))
  }

  predicate UniqueArgs(ts: seq<Node>, j: nat)
    decreases ts
  {
    ts == [] || (Unique(ts[0], Dec(j)) && Paths(ts[0], Dec(j)) !! ArgPaths(ts[1..], j + 1)
                 && UniqueArgs(ts[1..], j + 1))
  }

  /** What has been tried is finished. */
  predicate Clean(t: Node, path0: string, tried: set<string>)
    decreases t, 0
  {
    var path := path0 + "-" + t.name;
    && (path in tried ==> Minimal(t))
    && match t
       case Ptr(_, res) => (path + "->" in tried ==> res == []) && CleanSeq(res, path, tried)
       case Array(_, elems, _, _) => CleanElems(elems, 0, path, tried)
       case Struct(_, fields) => CleanSeq(fields, path, tried)
       case _ => true
  }

  predicate CleanSeq(ts: seq<Node>, path: string, tried: set<string>)
    decreases ts
  {
    ts == [] || (Clean(ts[0], path, tried) && CleanSeq(ts[1..], path, tried))
  }

  predicate CleanElems(ts: seq<Node>, i: nat, path: string, tried: set<string>)
    decreases ts
  {
    ts == [] ||
    (ElemPath(path, i) !in tried && Clean(ts[0], ElemPath(path, i), tried) && CleanElems(ts[1..], i + 1, path, tried))
  }

  predicate CleanArgs(ts: seq<Node>, j: nat, tried: set<string>)
    decreases ts
  {
    ts == [] || (Clean(ts[0], Dec(j), tried) && CleanArgs(ts[1..], j + 1, tried))
  }

  // ---- trying other paths changes nothing ----

  lemma {:induction false} CleanMore(t: Node, path0: string, tried: set<string>, tried1: set<string>, more: set<string>)
    requires Clean(t, path0, tried) && tried1 <= tried + more && more !! Paths(t, path0)
    ensures Clean(t, path0, tried1)
    decreases t, 0
  {
    hide Minimal;
    var path := path0 + "-" + t.name;
    match t
    case Ptr(_, res) => CleanSeqMore(res, path, tried, tried1, more);
    case Array(_, elems, _, _) => CleanElemsMore(elems, 0, path, tried, tried1, more);
    case Struct(_, fields) => CleanSeqMore(fields, path, tried, tried1, more);
    case _ =>
  }

  lemma {:induction false} CleanSeqMore(ts: seq<Node>, path: string, tried: set<string>, tried1: set<string>,
                                        more: set<string>)
    requires CleanSeq(ts, path, tried) && tried1 <= tried + more && more !! PathsSeq(ts, path)
    ensures CleanSeq(ts, path, tried1)
    decreases ts
  {
    hide Clean, Paths;
    if ts != [] {
      CleanMore(ts[0], path, tried, tried1, more);
      CleanSeqMore(ts[1..], path, tried, tried1, more);
    }
  }

  lemma {:induction false} CleanElemsMore(ts: seq<Node>, i: nat, path: string, tried: set<string>, tried1: set<string>,
                                          more: set<string>)
    requires CleanElems(ts, i, path, tried) && tried1 <= tried + more && more !! ElemPaths(ts, i, path)
    ensures CleanElems(ts, i, path, tried1)
    decreases ts
  {
    hide Clean, Paths, ElemPath;
    if ts != [] {
      CleanMore(ts[0], ElemPath(path, i), tried, tried1, more);
      CleanElemsMore(ts[1..], i + 1, path, tried, tried1, more);
    }
  }

  lemma {:induction false} CleanArgsMore(ts: seq<Node>, j: nat, tried: set<string>, tried1: set<string>,
                                         more: set<string>)
    requires CleanArgs(ts, j, tried) && tried1 <= tried + more && more !! ArgPaths(ts, j)
    ensures CleanArgs(ts, j, tried1)
    decreases ts
  {
    hide Clean, Paths, Dec;
    if ts != [] {
      CleanMore(ts[0], Dec(j), tried, tried1, more);
      CleanArgsMore(ts[1..], j + 1, tried, tried1, more);
    }
  }

  // ---- one attempt ----

  ghost predicate AlwaysYes(ans: Answers) { forall k :: ans(k) }

  /** An attempt at a clean part leaves it clean and tries only its own paths; without a restart it is finished. */
  ghost predicate Agreed(clean: bool, unique: bool, paths: set<string>, paths1: set<string>, tried: set<string>,
                         tried1: set<string>) {
    clean && unique && paths1 <= paths && tried <= tried1 <= tried + paths
  }

  lemma {:induction false} CutAll(len: nat, minLen: nat, step: nat, ctx: Context, ans: Answers)
    requires AlwaysYes(ans) && (len > minLen ==> step == len - minLen)
    ensures var r := CutBlob(len, minLen, step, false, ctx, ans);
      r.0 == (if len > minLen then minLen else len) && r.1.tried == ctx.tried
  {
    if len > minLen {
      var ctx1 := ctx.(asked := ctx.asked + 1);
      assert CutBlob(minLen, minLen, step, false, ctx1, ans) == (minLen, ctx1);
    }
  }

  lemma {:induction false} DoAgreed(t: Node, path0: string, ctx: Context, ans: Answers)
    requires AlwaysYes(ans) && Unique(t, path0) && Clean(t, path0, ctx.tried)
    ensures var (t1, ctx1, again) := Do(t, path0, false, ctx, ans);
      && t1.name == t.name && (!again ==> Minimal(t1))
      && Agreed(Clean(t1, path0, ctx1.tried), Unique(t1, path0), Paths(t, path0), Paths(t1, path0), ctx.tried,
                ctx1.tried)
    decreases t, 1
  {
    hide AlwaysYes;
    var path := path0 + "-" + t.name;
    if path !in ctx.tried {
      SimplifyAgreed(t, path0, ctx, ans);
      hide Simplify, Minimal;
      var (t1, ctx1, again) := Simplify(t, path, false, ctx, ans);
      if !again {
        ParentTried(t1, path0, ctx1.tried);
      }
    }
  }

  /** A finished tree may be marked as tried. */
  lemma ParentTried(t: Node, path0: string, tried: set<string>)
    requires Clean(t, path0, tried) && Unique(t, path0) && Minimal(t)
    ensures Clean(t, path0, tried + {path0 + "-" + t.name})
  {
    hide Minimal, CleanSeq, CleanElems, PathsSeq, ElemPaths, UniqueSeq, UniqueElems;
    var path := path0 + "-" + t.name;
    assert path + "->" != path;
    match t
    case Ptr(_, res) => CleanSeqMore(res, path, tried, tried + {path}, {path});
    case Array(_, elems, _, _) => CleanElemsMore(elems, 0, path, tried, tried + {path}, {path});
    case Struct(_, fields) => CleanSeqMore(fields, path, tried, tried + {path}, {path});
    case _ =>
  }

  lemma {:induction false} SimplifyAgreed(t: Node, path0: string, ctx: Context, ans: Answers)
    requires AlwaysYes(ans) && Unique(t, path0) && Clean(t, path0, ctx.tried) && path0 + "-" + t.name !in ctx.tried
    ensures var (t1, ctx1, again) := Simplify(t, path0 + "-" + t.name, false, ctx, ans);
      && t1.name == t.name && (!again ==> Minimal(t1))
      && Agreed(Clean(t1, path0, ctx1.tried), Unique(t1, path0), Paths(t, path0), Paths(t1, path0), ctx.tried,
                ctx1.tried)
    decreases t, 0
  {
    var path := path0 + "-" + t.name;
    assert path + "->" != path;
    match t
    case Int(_, _, _) => assert ans(ctx.asked);
    case Res(_, _, _) => assert ans(ctx.asked);
    case Blob(_, data, minLen) =>
      CutAll(|data|, minLen, if |data| >= minLen then |data| - minLen else 0, ctx, ans);
    case Other(_) =>
    case Ptr(_, res) =>
      hide AlwaysYes;
      if res != [] {
        assert path + "->" !in ctx.tried;
      }
    case Array(_, elems, random, minElems) =>
      ElemsAgreed(elems, random, minElems, path, ctx, ans);
    case Struct(_, fields) =>
      FieldsAgreed(fields, path, ctx, ans);
  }

  lemma {:induction false} FieldsAgreed(fields: seq<Node>, path: string, ctx: Context, ans: Answers)
    requires AlwaysYes(ans) && UniqueSeq(fields, path) && CleanSeq(fields, path, ctx.tried)
    ensures var (fields1, ctx1, again) := DoFields(fields, path, false, ctx, ans);
      && (!again ==> AllMinimal(fields1))
      && Agreed(CleanSeq(fields1, path, ctx1.tried), UniqueSeq(fields1, path), PathsSeq(fields, path),
                PathsSeq(fields1, path), ctx.tried, ctx1.tried)
    decreases fields, 0
  {
    hide AlwaysYes, Do, Minimal, Clean, Unique, Paths;
    if fields != [] {
      var f, rest := fields[0], fields[1..];
      DoAgreed(f, path, ctx, ans);
      var (f1, ctx1, again) := Do(f, path, false, ctx, ans);
      CleanSeqMore(rest, path, ctx.tried, ctx1.tried, Paths(f, path));
      if again {
        assert ([f1] + rest)[1..] == rest;
      } else {
        FieldsAgreed(rest, path, ctx1, ans);
        var (rest1, ctx2, again2) := DoFields(rest, path, false, ctx1, ans);
        CleanMore(f1, path, ctx1.tried, ctx2.tried, PathsSeq(rest, path));
        assert ([f1] + rest1)[1..] == rest1;
      }
    }
  }

  lemma {:induction false} ArgsAgreed(args: seq<Node>, j: nat, ctx: Context, ans: Answers)
    requires AlwaysYes(ans) && UniqueArgs(args, j) && CleanArgs(args, j, ctx.tried)
    ensures var (args1, ctx1, again) := DoArgs(args, j, false, ctx, ans);
      && (!again ==> AllMinimal(args1))
      && Agreed(CleanArgs(args1, j, ctx1.tried), UniqueArgs(args1, j), ArgPaths(args, j), ArgPaths(args1, j), ctx.tried,
                ctx1.tried)
    decreases args
  {
    hide AlwaysYes, Do, Minimal, Clean, Unique, Paths, Dec;
    if args != [] {
      var f, rest := args[0], args[1..];
      DoAgreed(f, Dec(j), ctx, ans);
      var (f1, ctx1, again) := Do(f, Dec(j), false, ctx, ans);
      CleanArgsMore(rest, j + 1, ctx.tried, ctx1.tried, Paths(f, Dec(j)));
      if again {
        assert ([f1] + rest)[1..] == rest;
      } else {
        ArgsAgreed(rest, j + 1, ctx1, ans);
        var (rest1, ctx2, again2) := DoArgs(rest, j + 1, false, ctx1, ans);
        CleanMore(f1, Dec(j), ctx1.tried, ctx2.tried, ArgPaths(rest, j + 1));
        assert ([f1] + rest1)[1..] == rest1;
      }
    }
  }

  // ---- elements, which are tried from the last to the first ----

  lemma {:induction false} ElemsSplit(a: seq<Node>, b: seq<Node>, i: nat, path: string, tried: set<string>)
    ensures CleanElems(a + b, i, path, tried) <==> CleanElems(a, i, path, tried) && CleanElems(b, i + |a|, path, tried)
    ensures UniqueElems(a + b, i, path) <==>
            (UniqueElems(a, i, path) && UniqueElems(b, i + |a|, path)
             && ElemPaths(a, i, path) !! ElemPaths(b, i + |a|, path))
    ensures AllMinimal(a + b) <==> AllMinimal(a) && AllMinimal(b)
    decreases a
  {
    hide Clean, Unique, Paths, ElemPath, Minimal;
    if a == [] {
      assert a + b == b;
    } else {
      assert (a + b)[0] == a[0] && (a + b)[1..] == a[1..] + b;
      ElemsSplit(a[1..], b, i + 1, path, tried);
      ElemPathsSplit(a[1..], b, i + 1, path);
    }
  }

  lemma OneElemIs(e: Node, i: nat, path: string, tried: set<string>)
    ensures var ep := ElemPath(path, i);
      && (CleanElems([e], i, path, tried) <==> ep !in tried && Clean(e, ep, tried))
      && (UniqueElems([e], i, path) <==> Unique(e, ep) && ep !in Paths(e, ep))
      && ElemPaths([e], i, path) == {ep} + Paths(e, ep) && (AllMinimal([e]) <==> Minimal(e))
  {
    hide Clean, Unique, Paths, ElemPath, Minimal;
    assert [e][1..] == [];
  }

  /** Elements that may not be removed. */
  lemma {:induction false} ElemsTried(elems: seq<Node>, count: nat, minElems: nat, path: string, ctx: Context,
                                      ans: Answers)
    requires AlwaysYes(ans) && UniqueElems(elems, 0, path) && CleanElems(elems, 0, path, ctx.tried) && count <= minElems
    ensures var (elems1, ctx1, again) := DoElems(elems, |elems|, count, false, minElems, path, false, ctx, ans);
      && |elems1| == |elems| && (!again ==> AllMinimal(elems1))
      && Agreed(CleanElems(elems1, 0, path, ctx1.tried), UniqueElems(elems1, 0, path), ElemPaths(elems, 0, path),
                ElemPaths(elems1, 0, path), ctx.tried, ctx1.tried)
    decreases elems, 0
  {
    hide AlwaysYes, Do, Minimal, Clean, Unique, Paths, ElemPath, ElemPaths, CleanElems, UniqueElems, AllMinimal;
    if elems == [] {
      NoElems(path, ctx.tried);
    } else {
      var n := |elems| - 1;
      var pre, e, ep := elems[..n], elems[n], ElemPath(path, n);
      assert elems == pre + [e];
      LastElem(pre, e, count, false, minElems, path, false, ctx, ans);
      hide DoElems;
      ElemsSplit(pre, [e], 0, path, ctx.tried);
      ElemPathsSplit(pre, [e], 0, path);
      OneElemIs(e, n, path, ctx.tried);
      DoAgreed(e, ep, ctx, ans);
      var (e1, ctx1, again) := Do(e, ep, false, ctx, ans);
      CleanElemsMore(pre, 0, path, ctx.tried, ctx1.tried, Paths(e, ep));
      OneElemIs(e1, n, path, ctx1.tried);
      if again {
        ElemsSplit(pre, [e1], 0, path, ctx1.tried);
        ElemPathsSplit(pre, [e1], 0, path);
      } else {
        ElemsTried(pre, count, minElems, path, ctx1, ans);
        var (pre1, ctx2, again2) := DoElems(pre, |pre|, count, false, minElems, path, false, ctx1, ans);
        CleanMore(e1, ep, ctx1.tried, ctx2.tried, ElemPaths(pre, 0, path));
        OneElemIs(e1, n, path, ctx2.tried);
        ElemsSplit(pre1, [e1], 0, path, ctx2.tried);
        ElemPathsSplit(pre1, [e1], 0, path);
      }
    }
  }

  lemma NoElems(path: string, tried: set<string>)
    ensures CleanElems([], 0, path, tried) && UniqueElems([], 0, path) && AllMinimal([])
  {
  }

  lemma {:induction false} ElemsAgreed(elems: seq<Node>, random: bool, minElems: nat, path: string, ctx: Context,
                                       ans: Answers)
    requires AlwaysYes(ans) && UniqueElems(elems, 0, path) && CleanElems(elems, 0, path, ctx.tried)
    ensures var (elems1, ctx1, again) := DoElems(elems, |elems|, |elems|, random, minElems, path, false, ctx, ans);
      && (!again ==> AllMinimal(elems1) && (random ==> elems1 == []) && (elems1 != [] ==> |elems1| <= minElems))
      && Agreed(CleanElems(elems1, 0, path, ctx1.tried), UniqueElems(elems1, 0, path), ElemPaths(elems, 0, path),
                ElemPaths(elems1, 0, path), ctx.tried, ctx1.tried)
    decreases elems, 1
  {
    hide AlwaysYes, Do, Minimal, Clean, Unique, Paths, ElemPath, ElemPaths, CleanElems, UniqueElems, AllMinimal;
    if elems == [] {
      NoElems(path, ctx.tried);
    } else if random || |elems| > minElems {
      var n := |elems| - 1;
      var pre, e, ep := elems[..n], elems[n], ElemPath(path, n);
      assert elems == pre + [e];
      LastElem(pre, e, |elems|, random, minElems, path, false, ctx, ans);
      hide DoElems;
      ElemsSplit(pre, [e], 0, path, ctx.tried);
      ElemPathsSplit(pre, [e], 0, path);
      OneElemIs(e, n, path, ctx.tried);
      CleanElemsMore(pre, 0, path, ctx.tried, ctx.tried + {ep}, {ep});
    } else {
      ElemsTried(elems, |elems|, minElems, path, ctx, ans);
    }
  }

  // ---- whole runs ----

  /** With every answer yes a pass always leads to its working copy. */
  lemma PassKept(args: seq<Node>, ctx: Context, ans: Answers)
    requires AlwaysYes(ans)
    ensures var (copy, ctx1, again) := DoArgs(args, 0, false, ctx.(kept := false), ans);
      (if ctx1.kept then copy else args) == copy
  {
    hide DoArgs, Step, SomeBlob;
    var p := PassLogged(args, false, ctx, ans);
    if p.log != [] {
      assert ans(ctx.asked + 0) && p.log[0].answer;
      assert AnyYes(p.log);
    }
  }

  lemma {:induction false} PassesAgreed(args: seq<Node>, ctx: Context, ans: Answers)
    requires AlwaysYes(ans) && UniqueArgs(args, 0) && CleanArgs(args, 0, ctx.tried)
    ensures AllMinimal(Passes(args, false, ctx, ans).0)
    decreases NodesSeq(args), |ArgPaths(args, 0) - ctx.tried|
  {
    hide AlwaysYes, DoArgs, AllMinimal, UniqueArgs, CleanArgs, NodesSeq;
    ArgsAgreed(args, 0, ctx.(kept := false), ans);
    PassKept(args, ctx, ans);
    ArgsProgress(args, 0, false, ctx.(kept := false), ans);
    var (copy, ctx1, again) := DoArgs(args, 0, false, ctx.(kept := false), ans);
    if again {
      LeftShrinks(ArgPaths(args, 0), ctx.tried, ctx1.tried);
      PassesAgreed(copy, ctx1, ans);
    }
  }

  lemma {:induction false} CleanAtFirst(t: Node, path0: string)
    ensures Clean(t, path0, {})
    decreases t, 0
  {
    var path := path0 + "-" + t.name;
    match t
    case Ptr(_, res) => CleanSeqAtFirst(res, path);
    case Array(_, elems, _, _) => CleanElemsAtFirst(elems, 0, path);
    case Struct(_, fields) => CleanSeqAtFirst(fields, path);
    case _ =>
  }

  lemma {:induction false} CleanSeqAtFirst(ts: seq<Node>, path: string)
    ensures CleanSeq(ts, path, {})
    decreases ts
  {
    if ts != [] {
      CleanAtFirst(ts[0], path);
      CleanSeqAtFirst(ts[1..], path);
    }
  }

  lemma {:induction false} CleanElemsAtFirst(ts: seq<Node>, i: nat, path: string)
    ensures CleanElems(ts, i, path, {})
    decreases ts
  {
    if ts != [] {
      CleanAtFirst(ts[0], ElemPath(path, i));
      CleanElemsAtFirst(ts[1..], i + 1, path);
    }
  }

  lemma {:induction false} CleanArgsAtFirst(ts: seq<Node>, j: nat)
    ensures CleanArgs(ts, j, {})
    decreases ts
  {
    if ts != [] {
      CleanAtFirst(ts[0], Dec(j));
      CleanArgsAtFirst(ts[1..], j + 1);
    }
  }

  /** When everything is accepted and no path comes up twice, nothing is left to simplify: integers are defaults,
      resources refer to nothing, pointers point to nothing, and blobs and arrays are as short as they may be. */
  lemma AlwaysAgrees(args: seq<Node>, ans: Answers, asked: nat)
    requires AlwaysYes(ans) && UniqueArgs(args, 0)
    ensures AllMinimal(Passes(args, false, Context({}, asked, false), ans).0)
  {
    CleanArgsAtFirst(args, 0);
    PassesAgreed(args, Context({}, asked, false), ans);
  }

  /** Of two fields with the same name only the first is tried. */
  lemma SameNameStays(ans: Answers)
    requires AlwaysYes(ans)
    ensures var args := [Struct("s", [Int("a", 1, 0), Int("a", 2, 0)])];
      Passes(args, false, Context({}, 0, false), ans).0 == [Struct("s", [Int("a", 0, 0), Int("a", 2, 0)])]
  {
    var ctx, ctx1 := Context({}, 0, false), Ask(Context({}, 0, false), ans);
    var a, b, z := Int("a", 1, 0), Int("a", 2, 0), Int("a", 0, 0);
    var path := Dec(0) + "-" + "s";
    var ctx2 := ctx1.(tried := ctx1.tried + {path + "-" + "a"});
    assert ans(0);
    assert Simplify(a, path + "-" + "a", false, ctx, ans) == (z, ctx1, false);
    assert Do(a, path, false, ctx, ans) == (z, ctx2, false);
    assert Do(b, path, false, ctx2, ans) == (b, ctx2, false);
    LastField(b, path, ctx2, ans);
    assert [a, b][1..] == [b] && [z] + [b] == [z, b];
    assert DoFields([a, b], path, false, ctx, ans) == ([z, b], ctx2, false);
    var s, s1 := Struct("s", [a, b]), Struct("s", [z, b]);
    assert Simplify(s, path, false, ctx, ans) == (s1, ctx2, false);
    OneArg(s, s1, ctx2, ctx, ans);
  }

  lemma LastField(b: Node, path: string, ctx: Context, ans: Answers)
    requires Do(b, path, false, ctx, ans) == (b, ctx, false)
    ensures DoFields([b], path, false, ctx, ans) == ([b], ctx, false)
  {
    hide Do;
    assert [b][1..] == [] && [b] + [] == [b];
    assert DoFields([], path, false, ctx, ans) == ([], ctx, false);
  }

  lemma OneArg(s: Node, s1: Node, ctx1: Context, ctx: Context, ans: Answers)
    requires Simplify(s, Dec(0) + "-" + s.name, false, ctx, ans) == (s1, ctx1, false) && ctx == Context({}, 0, false)
    requires ctx1.kept
    ensures Passes([s], false, ctx, ans).0 == [s1]
  {
    hide Simplify, Dec;
    var path := Dec(0) + "-" + s.name;
    var ctx2 := ctx1.(tried := ctx1.tried + {path});
    assert Do(s, Dec(0), false, ctx, ans) == (s1, ctx2, false);
    hide Do;
    assert [s][1..] == [] && [s1] + [] == [s1];
    assert DoArgs([], 1, false, ctx2, ans) == ([], ctx2, false);
    assert DoArgs([s], 0, false, ctx, ans) == ([s1], ctx2, false);
    assert ctx.(kept := false) == ctx;
  }
}
