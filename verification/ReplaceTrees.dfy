/** Replacing argument trees: where a result sits the object stays and takes over the new links, groups
    are replaced field by field, and everything else is overwritten by the new subtree. */
module ReplaceTrees {
  import opened ProgTypes
  import opened DefUse
  import opened ArgNodes

  /** Trees that may replace one another: the same kind of node, and groups of the same length. */
  predicate Matching(t: Tree, t1: Tree)
    decreases t, 0
  {
    match t
    case Leaf(arg) => t1.Leaf? && arg.ConstArg? == t1.arg.ConstArg?
    case Pointer(_, _, _, _) => t1.Pointer?
    case Union(_, _) => t1.Union?
    case Result(_) => t1.Result?
    case Group(_, inner) => t1.Group? && MatchingSeq(inner, t1.inner)
  }

  predicate MatchingSeq(ts: seq<Tree>, ts1: seq<Tree>)
    decreases ts
  {
    |ts| == |ts1| && (ts != [] ==> Matching(ts[0], ts1[0]) && MatchingSeq(ts[1..], ts1[1..]))
  }

  /** The tree at the place of t after it is replaced by t1. */
  function Replaced(t: Tree, t1: Tree): Tree
    requires Matching(t, t1)
    decreases t, 0
  {
    match t
    case Result(_) => t
    case Group(typ, inner) => Group(t1.typ, ReplacedSeq(inner, t1.inner))
    case _ => t1
  }

  function ReplacedSeq(ts: seq<Tree>, ts1: seq<Tree>): (r: seq<Tree>)
    requires MatchingSeq(ts, ts1)
    ensures |r| == |ts|
    decreases ts
  {
    if ts == [] then [] else [Replaced(ts[0], ts1[0])] + ReplacedSeq(ts[1..], ts1[1..])
  }

  /** The graph after t is replaced by t1. */
  ghost function Relinked(g: Graph, t: Tree, t1: Tree): (g': Graph)
    requires Matching(t, t1) && Nodes(Results(t)) <= g.Keys && Nodes(Results(t1)) <= g.Keys
    ensures g'.Keys == g.Keys
    decreases t, 0
  {
    match t
    case Result(r) => assert r in Results(t) && t1.r in Results(t1); Replace(g, r, t1.r)
    case Group(_, inner) => RelinkedSeq(g, inner, t1.inner)
    case _ => g
  }

  ghost function RelinkedSeq(g: Graph, ts: seq<Tree>, ts1: seq<Tree>): (g': Graph)
    requires MatchingSeq(ts, ts1) && Nodes(ResultsSeq(ts)) <= g.Keys && Nodes(ResultsSeq(ts1)) <= g.Keys
    ensures g'.Keys == g.Keys
    decreases ts
  {
    if ts == [] then g else
      SplitNodes(ts);
      SplitNodes(ts1);
      RelinkedSeq(Relinked(g, ts[0], ts1[0]), ts[1..], ts1[1..])
  }

  /** The new tree t1 can replace t: its results are new, refer only to `avail`, and nobody uses them
      yet; nothing outside a subtree that is overwritten is linked with it. */
  ghost predicate Fits(t: Tree, t1: Tree, avail: set<ResultArg>, g: Graph)
    requires Matching(t, t1)
    decreases t, 0
  {
    match t
    case Leaf(_) => true
    case Result(_) =>
      && t1.r in g && g[t1.r].uses == {}
      && (g[t1.r].v.res != null ==> g[t1.r].v.res in avail && g[t1.r].v.res in g && t1.r in g[g[t1.r].v.res].uses)
    case Group(_, inner) => FitsSeq(inner, t1.inner, avail, g)
    case _ =>
      && Unlinked(g.Keys - Nodes(Results(t)), Results(t), g)
      && Arriving(avail, Results(t1), Nodes(Results(t1)), g)
  }

  ghost predicate FitsSeq(ts: seq<Tree>, ts1: seq<Tree>, avail: set<ResultArg>, g: Graph)
    requires MatchingSeq(ts, ts1)
    decreases ts
  {
    ts == [] || (Fits(ts[0], ts1[0], avail, g) && FitsSeq(ts[1..], ts1[1..], avail, g))
  }

  /** A change of the graph that concerns only the results in xs and the records at `avail`. */
  ghost predicate Local(g: Graph, g': Graph, xs: set<ResultArg>, avail: set<ResultArg>) {
    && g'.Keys == g.Keys
    && forall r :: r in g ==>
      && (if r in xs then g'[r].v.res == null || g'[r].v.res in avail || g'[r].v.res == g[r].v.res
          else g'[r].v == g[r].v)
      && g[r].uses - xs <= g'[r].uses <= g[r].uses + xs
      && (r !in avail ==> g'[r].uses <= g[r].uses)
  }

  lemma LocalTrans(g: Graph, g1: Graph, g2: Graph, xs: set<ResultArg>, ys: set<ResultArg>, avail: set<ResultArg>)
    requires Local(g, g1, xs, avail) && Local(g1, g2, ys, avail)
    ensures Local(g, g2, xs + ys, avail)
  {
  }

  /** Replacing t by t1 concerns only the results of the two. */
  lemma {:induction false} RelinkedLocal(g: Graph, t: Tree, t1: Tree, avail: set<ResultArg>)
    requires Matching(t, t1) && Fits(t, t1, avail, g)
    requires Nodes(Results(t)) <= g.Keys && Nodes(Results(t1)) <= g.Keys
    requires Nodes(Results(t1)) !! avail && Nodes(Results(t)) !! Nodes(Results(t1)) && Nodes(Results(t)) !! avail
    requires Distinct(Results(t)) && Distinct(Results(t1))
    ensures Local(g, Relinked(g, t, t1), Nodes(Results(t)) + Nodes(Results(t1)), avail)
    decreases t, 0
  {
    match t
    case Group(_, inner) => RelinkedLocalSeq(g, inner, t1.inner, avail);
    case Result(r) => assert r in Nodes(Results(t)) && t1.r in Nodes(Results(t1));
    case _ =>
  }

  lemma {:induction false} RelinkedLocalSeq(g: Graph, ts: seq<Tree>, ts1: seq<Tree>, avail: set<ResultArg>)
    requires MatchingSeq(ts, ts1) && FitsSeq(ts, ts1, avail, g)
    requires Nodes(ResultsSeq(ts)) <= g.Keys && Nodes(ResultsSeq(ts1)) <= g.Keys
    requires Nodes(ResultsSeq(ts1)) !! avail && Nodes(ResultsSeq(ts)) !! Nodes(ResultsSeq(ts1))
      && Nodes(ResultsSeq(ts)) !! avail
    requires Distinct(ResultsSeq(ts)) && Distinct(ResultsSeq(ts1))
    ensures Local(g, RelinkedSeq(g, ts, ts1), Nodes(ResultsSeq(ts)) + Nodes(ResultsSeq(ts1)), avail)
    decreases ts
  {
    if ts != [] {
      SplitNodes(ts);
      SplitNodes(ts1);
      SplitDistinct(Results(ts[0]), ResultsSeq(ts[1..]));
      SplitDistinct(Results(ts1[0]), ResultsSeq(ts1[1..]));
      RelinkedLocal(g, ts[0], ts1[0], avail);
      var g1 := Relinked(g, ts[0], ts1[0]);
      var xs, ys := Nodes(Results(ts[0])) + Nodes(Results(ts1[0])),
        Nodes(ResultsSeq(ts[1..])) + Nodes(ResultsSeq(ts1[1..]));
      FitsLocalSeq(ts[1..], ts1[1..], avail, g, g1, xs);
      RelinkedLocalSeq(g1, ts[1..], ts1[1..], avail);
      LocalTrans(g, g1, RelinkedSeq(g1, ts[1..], ts1[1..]), xs, ys, avail);
      assert xs + ys == Nodes(ResultsSeq(ts)) + Nodes(ResultsSeq(ts1));
    }
  }

  lemma SplitDistinct(a: seq<ResultArg>, b: seq<ResultArg>)
    requires Distinct(a + b)
    ensures Distinct(a) && Distinct(b) && Nodes(a) !! Nodes(b)
  {
    assert forall i :: 0 <= i < |a| ==> (a + b)[i] == a[i];
    assert forall i :: 0 <= i < |b| ==> (a + b)[|a| + i] == b[i];
  }

  /** A local change elsewhere does not affect what may be replaced here. */
  lemma {:induction false} FitsLocal(t: Tree, t1: Tree, avail: set<ResultArg>, g: Graph, g': Graph, xs: set<ResultArg>)
    requires Matching(t, t1) && Fits(t, t1, avail, g) && Local(g, g', xs, avail)
    requires Nodes(Results(t)) !! avail && Nodes(Results(t1)) !! avail && Nodes(Results(t)) !! xs
      && Nodes(Results(t1)) !! xs
    ensures Fits(t, t1, avail, g')
    decreases t, 0
  {
    match t
    case Group(_, inner) => FitsLocalSeq(inner, t1.inner, avail, g, g', xs);
    case Result(r) => assert t1.r in Nodes(Results(t1));
    case Leaf(_) =>
    case _ =>
      UnlinkedLocal(Results(t), avail, g, g', xs);
      ArrivingLocal(Results(t1), avail, g, g', xs);
  }

  lemma {:induction false} FitsLocalSeq(ts: seq<Tree>, ts1: seq<Tree>, avail: set<ResultArg>, g: Graph, g': Graph,
                                        xs: set<ResultArg>)
    requires MatchingSeq(ts, ts1) && FitsSeq(ts, ts1, avail, g) && Local(g, g', xs, avail)
    requires Nodes(ResultsSeq(ts)) !! avail && Nodes(ResultsSeq(ts1)) !! avail && Nodes(ResultsSeq(ts)) !! xs
      && Nodes(ResultsSeq(ts1)) !! xs
    ensures FitsSeq(ts, ts1, avail, g')
    decreases ts
  {
    if ts != [] {
      SplitNodes(ts);
      SplitNodes(ts1);
      FitsLocal(ts[0], ts1[0], avail, g, g', xs);
      FitsLocalSeq(ts[1..], ts1[1..], avail, g, g', xs);
    }
  }

  lemma UnlinkedLocal(mid: seq<ResultArg>, avail: set<ResultArg>, g: Graph, g': Graph, xs: set<ResultArg>)
    requires Unlinked(g.Keys - Nodes(mid), mid, g) && Local(g, g', xs, avail) && Nodes(mid) !! avail && Nodes(mid) !! xs
    ensures Unlinked(g'.Keys - Nodes(mid), mid, g')
  {
    forall r | r in g'.Keys - Nodes(mid)
      ensures g'[r].v.res !in mid && g'[r].uses !! Nodes(mid)
    {
      assert forall x :: x in mid ==> x in Nodes(mid);
    }
  }

  lemma ArrivingLocal(mid: seq<ResultArg>, avail: set<ResultArg>, g: Graph, g': Graph, xs: set<ResultArg>)
    requires Arriving(avail, mid, Nodes(mid), g) && Local(g, g', xs, avail) && Nodes(mid) !! avail && Nodes(mid) !! xs
    ensures Arriving(avail, mid, Nodes(mid), g')
  {
    forall i | 0 <= i < |mid|
      ensures g'[mid[i]].v == g[mid[i]].v && mid[i] !in xs
    {
      assert mid[i] in Nodes(mid);
    }
  }

  // ---- the invariant ----

  /** A replacement keeps the invariant of the program around it: pre and post are the results before
      and after the replaced tree. */
  lemma {:induction false} ReplacedKeepsInv(pre: seq<ResultArg>, t: Tree, t1: Tree, post: seq<ResultArg>,
                                            pending: set<ResultArg>, avail: set<ResultArg>, g: Graph)
    requires Matching(t, t1) && Fits(t, t1, avail, g) && Inv(pre + Results(t) + post, pending, g)
    requires avail <= Nodes(pre) && Distinct(Results(t1)) && Nodes(Results(t1)) <= pending <= g.Keys
      && pending !! Nodes(pre + Results(t) + post)
    ensures Nodes(Results(t)) <= g.Keys
    ensures Inv(pre + Results(Replaced(t, t1)) + post, pending - Nodes(Results(t1)), Relinked(g, t, t1))
    decreases t, 0
  {
    AroundNodes(pre, Results(t), post);
    match t
    case Group(_, inner) => ReplacedSeqKeepsInv(pre, inner, t1.inner, post, pending, avail, g);
    case Result(r) =>
      var order := pre + Results(t) + post;
      assert order[|pre|] == r && order[..|pre|] == pre;
      assert t1.r in Results(t1) && t1.r !in Nodes(order);
      ReplaceKeepsInv(order, pending, g, |pre|, t1.r);
      assert Nodes(Results(t1)) == {t1.r};
    case Leaf(_) =>
      assert pending - Nodes([]) == pending;
    case _ =>
      InvDistinct(pre, Results(t), post, pending, g);
      OverwriteIff(pre, Results(t), Results(t1), post, pending, avail, g);
  }

  lemma AroundNodes(pre: seq<ResultArg>, mid: seq<ResultArg>, post: seq<ResultArg>)
    ensures Nodes(pre + mid + post) == Nodes(pre) + Nodes(mid) + Nodes(post)
  {
  }

  /** Overwriting a subtree by new results keeps the invariant exactly if nothing that stays is linked with
      the old ones. */
  lemma OverwriteIff(pre: seq<ResultArg>, mid: seq<ResultArg>, new_: seq<ResultArg>, post: seq<ResultArg>,
                     pending: set<ResultArg>, avail: set<ResultArg>, g: Graph)
    requires Inv(pre + mid + post, pending, g) && Arriving(avail, new_, Nodes(new_), g)
    requires avail <= Nodes(pre) && Nodes(new_) <= pending && pending !! Nodes(pre + mid + post)
    ensures Inv(pre + new_ + post, pending - Nodes(new_), g) <==> Unlinked(Nodes(pre + post), mid, g)
  {
    AroundNodes(pre, mid, post);
    assert Nodes(pre + post) == Nodes(pre) + Nodes(post);
    CutIff(pre, mid, post, pending, g);
    if Unlinked(Nodes(pre + post), mid, g) {
      ArrivingMore(avail, Nodes(pre), new_, Nodes(new_), pending, g);
      InsertKeepsInv(pre, new_, post, pending, g);
    }
    if Inv(pre + new_ + post, pending - Nodes(new_), g) {
      AroundNodes(pre, new_, post);
      InvDistinct(pre, mid, post, pending, g);
      InvUnlinked(pre + new_ + post, pending - Nodes(new_), mid, g);
    }
  }

  lemma ArrivingMore(avail: set<ResultArg>, avail': set<ResultArg>, mid: seq<ResultArg>, users: set<ResultArg>,
                     users': set<ResultArg>, g: Graph)
    requires Arriving(avail, mid, users, g) && avail <= avail' && users <= users'
    ensures Arriving(avail', mid, users', g)
  {
  }

  lemma {:induction false} ReplacedNodes(t: Tree, t1: Tree)
    requires Matching(t, t1)
    ensures Nodes(Results(Replaced(t, t1))) <= Nodes(Results(t)) + Nodes(Results(t1))
    decreases t, 0
  {
    if t.Group? {
      ReplacedSeqNodes(t.inner, t1.inner);
    }
  }

  lemma {:induction false} ReplacedSeqNodes(ts: seq<Tree>, ts1: seq<Tree>)
    requires MatchingSeq(ts, ts1)
    ensures Nodes(ResultsSeq(ReplacedSeq(ts, ts1))) <= Nodes(ResultsSeq(ts)) + Nodes(ResultsSeq(ts1))
    decreases ts
  {
    if ts != [] {
      SplitNodes(ts);
      SplitNodes(ts1);
      SplitNodes(ReplacedSeq(ts, ts1));
      ReplacedNodes(ts[0], ts1[0]);
      ReplacedSeqNodes(ts[1..], ts1[1..]);
    }
  }

  lemma InvDistinct(pre: seq<ResultArg>, mid: seq<ResultArg>, post: seq<ResultArg>, pending: set<ResultArg>, g: Graph)
    requires Inv(pre + mid + post, pending, g)
    ensures Nodes(mid) <= g.Keys && Nodes(pre) !! Nodes(mid) && Nodes(pre) !! Nodes(post) && Nodes(mid) !! Nodes(post)
      && Distinct(mid)
  {
    AroundNodes(pre, mid, post);
    SplitDistinct(pre + mid, post);
    SplitDistinct(pre, mid);
    assert Nodes(pre + mid) == Nodes(pre) + Nodes(mid);
  }

  lemma {:induction false} ReplacedSeqKeepsInv(pre: seq<ResultArg>, ts: seq<Tree>, ts1: seq<Tree>, post: seq<ResultArg>,
                                               pending: set<ResultArg>, avail: set<ResultArg>, g: Graph)
    requires MatchingSeq(ts, ts1) && FitsSeq(ts, ts1, avail, g) && Inv(pre + ResultsSeq(ts) + post, pending, g)
    requires avail <= Nodes(pre) && Distinct(ResultsSeq(ts1)) && Nodes(ResultsSeq(ts1)) <= pending <= g.Keys
      && pending !! Nodes(pre + ResultsSeq(ts) + post)
    ensures Nodes(ResultsSeq(ts)) <= g.Keys
    ensures Inv(pre + ResultsSeq(ReplacedSeq(ts, ts1)) + post, pending - Nodes(ResultsSeq(ts1)),
                RelinkedSeq(g, ts, ts1))
    decreases ts
  {
    hide Inv, Fits, Unlinked, Arriving, Distinct, Local, Relinked, Replaced, Results;
    InvDistinct(pre, ResultsSeq(ts), post, pending, g);
    if ts == [] {
      assert pending - Nodes([]) == pending;
    } else {
      var a, rest, a', rest' := Results(ts[0]), ResultsSeq(ts[1..]), Results(ts1[0]), ResultsSeq(ts1[1..]);
      assert pre + ResultsSeq(ts) + post == pre + a + (rest + post);
      SplitDistinct(a', rest');
      SplitNodes(ts);
      SplitNodes(ts1);
      ReplacedKeepsInv(pre, ts[0], ts1[0], rest + post, pending, avail, g);
      var b, g1 := Results(Replaced(ts[0], ts1[0])), Relinked(g, ts[0], ts1[0]);
      assert pre + b + (rest + post) == pre + b + rest + post;
      SeqFits(pre, ts, ts1, post, pending, avail, g);
      ReplacedNodes(ts[0], ts1[0]);
      AroundNodes(pre + b, rest, post);
      AroundNodes(pre, ResultsSeq(ts), post);
      assert Nodes(pre + b) == Nodes(pre) + Nodes(b);
      ReplacedSeqKeepsInv(pre + b, ts[1..], ts1[1..], post, pending - Nodes(a'), avail, g1);
      var out := ReplacedSeq(ts, ts1);
      assert out[0] == Replaced(ts[0], ts1[0]) && out[1..] == ReplacedSeq(ts[1..], ts1[1..]);
      assert pre + b + ResultsSeq(out[1..]) + post == pre + ResultsSeq(out) + post;
      assert pending - Nodes(a') - Nodes(rest') == pending - Nodes(ResultsSeq(ts1));
    }
  }

  /** After the first tree of a list is replaced, the others still fit. */
  lemma SeqFits(pre: seq<ResultArg>, ts: seq<Tree>, ts1: seq<Tree>, post: seq<ResultArg>, pending: set<ResultArg>,
                avail: set<ResultArg>, g: Graph)
    requires ts != [] && MatchingSeq(ts, ts1) && FitsSeq(ts, ts1, avail, g)
      && Inv(pre + ResultsSeq(ts) + post, pending, g)
    requires avail <= Nodes(pre) && Distinct(ResultsSeq(ts1)) && Nodes(ResultsSeq(ts1)) <= pending <= g.Keys
      && pending !! Nodes(pre + ResultsSeq(ts) + post)
    ensures Nodes(Results(ts[0])) <= g.Keys && Nodes(Results(ts1[0])) <= g.Keys
    ensures FitsSeq(ts[1..], ts1[1..], avail, Relinked(g, ts[0], ts1[0]))
  {
    hide Inv, Fits, Unlinked, Arriving, Distinct, Local, Relinked, Replaced, Results;
    InvDistinct(pre, ResultsSeq(ts), post, pending, g);
    AroundNodes(pre, ResultsSeq(ts), post);
    SplitNodes(ts);
    SplitNodes(ts1);
    SplitDistinct(Results(ts[0]), ResultsSeq(ts[1..]));
    SplitDistinct(Results(ts1[0]), ResultsSeq(ts1[1..]));
    RelinkedLocal(g, ts[0], ts1[0], avail);
    FitsLocalSeq(ts[1..], ts1[1..], avail, g, Relinked(g, ts[0], ts1[0]),
                 Nodes(Results(ts[0])) + Nodes(Results(ts1[0])));
  }

  // ---- nodes ----

  /** The heap after the argument at ref is replaced by the one at ref1: groups keep their members, and
      every other node takes over the contents of its counterpart. */
  ghost function Overwritten(h: Heap, ref: Ref, ref1: Ref, t: Tree): (h1: Heap)
    ensures h1.Keys == h.Keys
    decreases t, 0
  {
    if !ref.Plain? || !ref1.Plain? || ref.n !in h || ref1.n !in h then h
    else if t.Group? && h[ref.n].NGroup? && h[ref1.n].NGroup? then
      OverwrittenSeq(h[ref.n := NGroup(h[ref1.n].typ, h[ref.n].inner)], h[ref.n].inner, h[ref1.n].inner, t.inner)
    else h[ref.n := h[ref1.n]]
  }

  ghost function OverwrittenSeq(h: Heap, refs: seq<Ref>, refs1: seq<Ref>, ts: seq<Tree>): (h1: Heap)
    ensures h1.Keys == h.Keys
    decreases ts
  {
    if ts == [] || refs == [] || refs1 == [] then h
    else OverwrittenSeq(Overwritten(h, refs[0], refs1[0], ts[0]), refs[1..], refs1[1..], ts[1..])
  }

  /** After a replacement the new tree stands at the old reference, on nodes of the two. */
  lemma {:induction false} OverwrittenRep(h: Heap, ref: Ref, ref1: Ref, t: Tree, t1: Tree)
    requires Matching(t, t1) && Rep(h, ref, t) && Rep(h, ref1, t1) && Foot(h, ref, t) !! Foot(h, ref1, t1)
    ensures var h1, f := Overwritten(h, ref, ref1, t), Foot(h, ref, t);
      && OnlyAt(h, h1, f) && Rep(h1, ref, Replaced(t, t1)) && Foot(h1, ref, Replaced(t, t1)) <= f + Foot(h, ref1, t1)
    decreases t, 0
  {
    if t.Group? {
      OverwrittenGroup(h, ref, ref1, t, t1);
    } else if !t.Result? {
      var n, n1 := ref.n, ref1.n;
      var h1 := h[n := h[n1]];
      FootInside(h, ref1, t1);
      match h[n1]
      case NPointer(_, _, _, pointee) =>
        if pointee.Some? {
          RepFrame(h, h1, pointee.value, t1.pointee.value);
        }
      case NUnion(_, option) => RepFrame(h, h1, option, t1.option);
      case _ =>
    }
  }

  lemma {:induction false} OverwrittenGroup(h: Heap, ref: Ref, ref1: Ref, t: Tree, t1: Tree)
    requires t.Group? && Matching(t, t1) && Rep(h, ref, t) && Rep(h, ref1, t1) && Foot(h, ref, t) !! Foot(h, ref1, t1)
    ensures var h1, f := Overwritten(h, ref, ref1, t), Foot(h, ref, t);
      && OnlyAt(h, h1, f) && Rep(h1, ref, Replaced(t, t1)) && Foot(h1, ref, Replaced(t, t1)) <= f + Foot(h, ref1, t1)
    decreases t.inner, 1
  {
    hide RepSeq, FootSeq, OverwrittenSeq;
    var n, n1 := ref.n, ref1.n;
    var h0, inner, inner1 := h[n := NGroup(h[n1].typ, h[n].inner)], h[n].inner, h[n1].inner;
    RepSeqFrame(h, h0, inner, t.inner);
    RepSeqFrame(h, h0, inner1, t1.inner);
    OverwrittenSeqRep(h0, inner, inner1, t.inner, t1.inner);
  }

  lemma {:induction false} OverwrittenSeqRep(h: Heap, refs: seq<Ref>, refs1: seq<Ref>, ts: seq<Tree>, ts1: seq<Tree>)
    requires MatchingSeq(ts, ts1) && RepSeq(h, refs, ts) && RepSeq(h, refs1, ts1)
    requires FootSeq(h, refs, ts) !! FootSeq(h, refs1, ts1)
    ensures var h1, f := OverwrittenSeq(h, refs, refs1, ts), FootSeq(h, refs, ts);
      && OnlyAt(h, h1, f) && RepSeq(h1, refs, ReplacedSeq(ts, ts1))
      && FootSeq(h1, refs, ReplacedSeq(ts, ts1)) <= f + FootSeq(h, refs1, ts1)
    decreases ts, 0
  {
    hide Rep, Foot, Overwritten, Replaced;
    if ts != [] {
      var a, rest, a1, rest1 := refs[0], refs[1..], refs1[0], refs1[1..];
      OverwrittenRep(h, a, a1, ts[0], ts1[0]);
      var h0 := Overwritten(h, a, a1, ts[0]);
      RepSeqFrame(h, h0, rest, ts[1..]);
      RepSeqFrame(h, h0, rest1, ts1[1..]);
      OverwrittenSeqRep(h0, rest, rest1, ts[1..], ts1[1..]);
      var h1, t2 := OverwrittenSeq(h0, rest, rest1, ts[1..]), Replaced(ts[0], ts1[0]);
      RepFrame(h0, h1, a, t2);
      var out := ReplacedSeq(ts, ts1);
      assert out[0] == t2 && out[1..] == ReplacedSeq(ts[1..], ts1[1..]);
    }
  }

  // ---- the method ----

  /** Replaces the argument at ref, in place, by the one at ref1. */
  method ReplaceArg(ref: Ref, ref1: Ref, ghost t: Tree, ghost t1: Tree, ghost s: set<ResultArg>, ghost h: Heap)
    requires Matching(t, t1) && Nodes(Results(t)) <= s && Nodes(Results(t1)) <= s
    requires forall r :: r in s && r.v.res != null ==> r.v.res in s
    requires Current(h) && Rep(h, ref, t) && Rep(h, ref1, t1) && Foot(h, ref, t) !! Foot(h, ref1, t1)
    modifies s, h.Keys
    ensures Snap(s) == Relinked(old(Snap(s)), t, t1)
    ensures forall r :: r in s && r.v.res != null ==> r.v.res in s
    ensures Current(Overwritten(h, ref, ref1, t))
    decreases t, 0
  {
    hide RepSeq, FootSeq, OverwrittenSeq, RelinkedSeq, MatchingSeq, Replace;
    match ref
    case Res(r) =>
      assert r in Results(t) && ref1.r in Results(t1);
      ReplaceOne(r, ref1.r, s);
    case Plain(n) =>
      assert n.v == h[n] && ref1.n.v == h[ref1.n];
      if n.v.NGroup? {
        ReplaceGroup(n, ref1.n, t, t1, s, h);
      } else {
        n.v := ref1.n.v;
      }
  }

  method ReplaceOne(r: ResultArg, r1: ResultArg, ghost s: set<ResultArg>)
    requires r in s && r1 in s && forall q :: q in s && q.v.res != null ==> q.v.res in s
    modifies s
    ensures Snap(s) == Replace(old(Snap(s)), r, r1)
    ensures forall q :: q in s && q.v.res != null ==> q.v.res in s
  {
    ghost var g := Snap(s);
    assert forall q :: q in s ==> g[q].v == q.v;
    ReplaceResultArg(r, r1, s);
    assert forall q :: q in s ==> Snap(s)[q].v == q.v;
  }

  method ReplaceGroup(n: Node, n1: Node, ghost t: Tree, ghost t1: Tree, ghost s: set<ResultArg>, ghost h: Heap)
    requires t.Group? && Matching(t, t1) && Nodes(Results(t)) <= s && Nodes(Results(t1)) <= s
    requires forall r :: r in s && r.v.res != null ==> r.v.res in s
    requires Current(h) && Rep(h, Plain(n), t) && Rep(h, Plain(n1), t1)
      && Foot(h, Plain(n), t) !! Foot(h, Plain(n1), t1)
    modifies s, h.Keys
    ensures Snap(s) == Relinked(old(Snap(s)), t, t1)
    ensures forall r :: r in s && r.v.res != null ==> r.v.res in s
    ensures Current(Overwritten(h, Plain(n), Plain(n1), t))
    decreases t, -1
  {
    hide RepSeq, FootSeq, OverwrittenSeq, RelinkedSeq, MatchingSeq;
    assert n.v == h[n] && n1.v == h[n1];
    ghost var h0 := h[n := NGroup(h[n1].typ, h[n].inner)];
    RepSeqFrame(h, h0, h[n].inner, t.inner);
    RepSeqFrame(h, h0, h[n1].inner, t1.inner);
    n.v := NGroup(n1.v.typ, n.v.inner);
    ReplaceArgs(n.v.inner, n1.v.inner, t.inner, t1.inner, s, h0);
  }

  method ReplaceArgs(refs: seq<Ref>, refs1: seq<Ref>, ghost ts: seq<Tree>, ghost ts1: seq<Tree>,
                     ghost s: set<ResultArg>,
                     ghost h: Heap)
    requires MatchingSeq(ts, ts1) && Nodes(ResultsSeq(ts)) <= s && Nodes(ResultsSeq(ts1)) <= s
    requires forall r :: r in s && r.v.res != null ==> r.v.res in s
    requires Current(h) && RepSeq(h, refs, ts) && RepSeq(h, refs1, ts1)
      && FootSeq(h, refs, ts) !! FootSeq(h, refs1, ts1)
    modifies s, h.Keys
    ensures Snap(s) == RelinkedSeq(old(Snap(s)), ts, ts1)
    ensures forall r :: r in s && r.v.res != null ==> r.v.res in s
    ensures Current(OverwrittenSeq(h, refs, refs1, ts))
    decreases ts
  {
    if refs != [] {
      SplitNodes(ts);
      SplitNodes(ts1);
      ReplaceArg(refs[0], refs1[0], ts[0], ts1[0], s, h);
      ghost var h0 := Overwritten(h, refs[0], refs1[0], ts[0]);
      OverwrittenRep(h, refs[0], refs1[0], ts[0], ts1[0]);
      RepSeqFrame(h, h0, refs[1..], ts[1..]);
      RepSeqFrame(h, h0, refs1[1..], ts1[1..]);
      ReplaceArgs(refs[1..], refs1[1..], ts[1..], ts1[1..], s, h0);
    }
  }
}
