/** Programs as heap graphs. Result arguments are objects: `res` is the result an argument refers to
    and `uses` the arguments that refer to it. The edits below change these links in place; each is
    proved against a function on snapshots of the graph, and every such function keeps the graph
    symmetric, closed and backward-pointing. */
module DefUse {
  import opened ProgTypes

  /** What a result argument is besides the arguments that use it. */
  datatype Value = Value(typ: Type, res: ResultArg?, opDiv: u64, opAdd: u64, val: u64)

  class ResultArg {
    var v: Value
    var uses: set<ResultArg>

    constructor (v: Value)
      ensures this.v == v && uses == {}
    {
      this.v, this.uses := v, {};
    }
  }

  /** The default argument of a resource type. */
  function DefaultResult(t: Type): Value {
    Value(t, null, 0, 0, if t.ResourceT? then t.default else 0)
  }

  /** Constants and data. */
  type PlainArg = a: Arg | a.ConstArg? || a.DataArg? witness ConstArg(VmaT(Common("", 0, DirIn, false, false)), 0)

  /** Argument trees with the result objects at their leaves. */
  datatype Tree =
    | Leaf(arg: PlainArg)
    | Pointer(typ: Type, address: u64, vmaSize: u64, pointee: Option<Tree>)
    | Group(typ: Type, inner: seq<Tree>)
    | Union(typ: Type, option: Tree)
    | Result(r: ResultArg)

  datatype HCall = HCall(meta: nat, args: seq<Tree>, ret: ResultArg?)

  /** The results of a tree, left to right. */
  function Results(t: Tree): seq<ResultArg>
    decreases t, 0
  {
    match t
    case Leaf(_) => []
    case Pointer(_, _, _, pointee) => if pointee.Some? then Results(pointee.value) else []
    case Group(_, inner) => ResultsSeq(inner)
    case Union(_, option) => Results(option)
    case Result(r) => [r]
  }

  function ResultsSeq(ts: seq<Tree>): seq<ResultArg>
    decreases ts
  {
    if ts == [] then [] else Results(ts[0]) + ResultsSeq(ts[1..])
  }

  /** The results of a call in the order of validation: the return value last. */
  function ResultsCall(c: HCall): seq<ResultArg> {
    ResultsSeq(c.args) + (if c.ret != null then [c.ret] else [])
  }

  function ResultsCalls(calls: seq<HCall>): seq<ResultArg> {
    if calls == [] then [] else ResultsCall(calls[0]) + ResultsCalls(calls[1..])
  }

  // ---- snapshots ----

  datatype Cell = Cell(v: Value, uses: set<ResultArg>)

  type Graph = map<ResultArg, Cell>

  ghost function Snap(s: set<ResultArg>): (g: Graph)
    reads s
    ensures g.Keys == s
  {
    map r | r in s :: Cell(r.v, r.uses)
  }

  ghost function Nodes(order: seq<ResultArg>): set<ResultArg> { set r | r in order }

  lemma SplitNodes(ts: seq<Tree>)
    requires ts != []
    ensures Nodes(ResultsSeq(ts)) == Nodes(Results(ts[0])) + Nodes(ResultsSeq(ts[1..]))
  {
  }

  ghost predicate Distinct(order: seq<ResultArg>) {
    forall i, j :: 0 <= i < j < |order| ==> order[i] != order[j]
  }

  /** References point strictly backwards and are recorded at their target. */
  ghost predicate Backward(order: seq<ResultArg>, g: Graph)
    requires Nodes(order) <= g.Keys
  {
    forall i :: 0 <= i < |order| && g[order[i]].v.res != null ==>
      && g[order[i]].v.res in order[..i]
      && g[order[i]].v.res in g && order[i] in g[g[order[i]].v.res].uses
  }

  /** Recorded uses refer back; their owners are in the program or among the pending arguments. */
  ghost predicate Closed(order: seq<ResultArg>, pending: set<ResultArg>, g: Graph)
    requires Nodes(order) <= g.Keys
  {
    forall r, u :: r in order && u in g[r].uses ==> (u in order || u in pending) && u in g && g[u].v.res == r
  }

  /** The def-use invariant of a program whose results are `order`; `pending` are arguments outside
      the program that already refer into it. */
  ghost predicate Inv(order: seq<ResultArg>, pending: set<ResultArg>, g: Graph) {
    && Nodes(order) <= g.Keys && Distinct(order)
    && Backward(order, g) && Closed(order, pending, g)
  }

  // ---- removing results ----

  /** The graph after removing results d: users of a removed result become defaults, and removed
      results are no longer recorded as users. */
  ghost function Remove(g: Graph, d: set<ResultArg>): (g': Graph)
    ensures g'.Keys == g.Keys
  {
    map r | r in g ::
      var uses := if r in d then {} else g[r].uses - d;
      if g[r].v.res in d then Cell(DefaultResult(g[r].v.typ), uses) else g[r].(uses := uses)
  }

  lemma RemoveOne(g: Graph, d: set<ResultArg>, a: ResultArg)
    ensures Remove(Remove(g, d), {a}) == Remove(g, d + {a})
  {
    var left, right := Remove(Remove(g, d), {a}), Remove(g, d + {a});
    forall r | r in g
      ensures left[r] == right[r]
    {
      assert g[r].uses - d - {a} == g[r].uses - (d + {a});
    }
  }

  lemma RemoveNone(g: Graph)
    ensures Remove(g, {}) == g
  {
    forall r | r in g
      ensures Remove(g, {})[r] == g[r]
    {
      assert g[r].uses - {} == g[r].uses;
    }
  }

  /** What remains of a distinct order when its middle is cut out. */
  lemma CutDistinct(pre: seq<ResultArg>, mid: seq<ResultArg>, post: seq<ResultArg>)
    requires Distinct(pre + mid + post)
    ensures Distinct(pre + post) && Nodes(pre + post) !! Nodes(mid)
    ensures Nodes(pre + post) <= Nodes(pre + mid + post)
  {
    var all, left := pre + mid + post, pre + post;
    forall i | 0 <= i < |left|
      ensures left[i] == all[if i < |pre| then i else i + |mid|]
    {
    }
    forall m | 0 <= m < |mid|
      ensures mid[m] == all[|pre| + m]
    {
    }
    assert forall i, m :: 0 <= i < |left| && 0 <= m < |mid| ==> left[i] != mid[m];
  }

  /** An earlier result is still earlier when neither it nor the later one is cut out. */
  lemma CutEarlier(pre: seq<ResultArg>, mid: seq<ResultArg>, post: seq<ResultArg>, i: nat, t: ResultArg)
    requires i < |pre + post| && t !in mid
    requires t in (pre + mid + post)[..if i < |pre| then i else i + |mid|]
    ensures t in (pre + post)[..i]
  {
    var all, left := pre + mid + post, pre + post;
    assert forall m :: 0 <= m < |mid| ==> all[|pre| + m] == mid[m];
    var k :| 0 <= k < (if i < |pre| then i else i + |mid|) && all[k] == t;
    if k < |pre| {
      assert left[..i][k] == t;
    } else {
      assert left[..i][k - |mid|] == t;
    }
  }

  lemma RemoveBackward(pre: seq<ResultArg>, mid: seq<ResultArg>, post: seq<ResultArg>, g: Graph)
    requires var all := pre + mid + post; Nodes(all) <= g.Keys && Distinct(all) && Backward(all, g)
    ensures Nodes(pre + post) <= g.Keys && Backward(pre + post, Remove(g, Nodes(mid)))
  {
    CutDistinct(pre, mid, post);
    var all, left := pre + mid + post, pre + post;
    var g' := Remove(g, Nodes(mid));
    forall i | 0 <= i < |left| && g'[left[i]].v.res != null
      ensures g'[left[i]].v.res in left[..i] && g'[left[i]].v.res in g' && left[i] in g'[g'[left[i]].v.res].uses
    {
      var r := left[i];
      var i' := if i < |pre| then i else i + |mid|;
      assert r == all[i'] && r in Nodes(left);
      var t := g[r].v.res;
      assert t !in mid;
      CutEarlier(pre, mid, post, i, t);
    }
  }

  lemma RemoveClosed(pre: seq<ResultArg>, mid: seq<ResultArg>, post: seq<ResultArg>, pending: set<ResultArg>, g: Graph)
    requires Inv(pre + mid + post, pending, g) && pending !! Nodes(mid)
    requires Nodes(pre + post) <= g.Keys && Nodes(pre + post) !! Nodes(mid)
    ensures Closed(pre + post, pending, Remove(g, Nodes(mid)))
  {
    var all, left, d := pre + mid + post, pre + post, Nodes(mid);
    var g' := Remove(g, d);
    forall r, u | r in left && u in g'[r].uses
      ensures (u in left || u in pending) && u in g' && g'[u].v.res == r
    {
      assert r in Nodes(left) && r in Nodes(all) && u in g[r].uses && u !in d;
    }
  }

  /** Removing a stretch of the program keeps the invariant for the rest: no live argument refers to
      a removed one, and none is recorded as used by one. */
  lemma RemoveKeepsInv(pre: seq<ResultArg>, mid: seq<ResultArg>, post: seq<ResultArg>, pending: set<ResultArg>,
                       g: Graph)
    requires Inv(pre + mid + post, pending, g) && pending !! Nodes(mid)
    ensures Inv(pre + post, pending, Remove(g, Nodes(mid)))
    ensures forall r :: r in pre + post ==>
      Remove(g, Nodes(mid))[r].v.res !in mid && Remove(g, Nodes(mid))[r].uses !! Nodes(mid)
  {
    CutDistinct(pre, mid, post);
    RemoveBackward(pre, mid, post, g);
    RemoveClosed(pre, mid, post, pending, g);
    hide Backward, Closed, Distinct;
    var left, g' := pre + post, Remove(g, Nodes(mid));
    forall r | r in left
      ensures g'[r].v.res !in mid && g'[r].uses !! Nodes(mid)
    {
      assert r in Nodes(left);
      RemovedOne(g, mid, r);
    }
  }

  lemma RemovedOne(g: Graph, mid: seq<ResultArg>, r: ResultArg)
    requires r in g && r !in Nodes(mid)
    ensures Remove(g, Nodes(mid))[r].v.res !in mid && Remove(g, Nodes(mid))[r].uses !! Nodes(mid)
  {
  }

  // ---- in-place edits of links ----

  /** The graph after argument `arg` takes over everything from `arg1` except its users. */
  ghost function Replace(g: Graph, arg: ResultArg, arg1: ResultArg): (g': Graph)
    requires arg in g && arg1 in g
    ensures g'.Keys == g.Keys
  {
    map r | r in g ::
      var kept := if r == g[arg].v.res then g[r].uses - {arg} else g[r].uses;
      var uses := if r == g[arg1].v.res then kept - {arg1} + {arg} else kept;
      if r == arg then g[arg1].(uses := uses) else g[r].(uses := uses)
  }

  method ReplaceResultArg(arg: ResultArg, arg1: ResultArg, ghost s: set<ResultArg>)
    requires arg in s && arg1 in s
    requires (arg.v.res != null ==> arg.v.res in s) && (arg1.v.res != null ==> arg1.v.res in s)
    modifies s
    ensures Snap(s) == Replace(old(Snap(s)), arg, arg1)
  {
    if arg.v.res != null {
      arg.v.res.uses := arg.v.res.uses - {arg};
    }
    arg.v := arg1.v;
    if arg.v.res != null {
      arg.v.res.uses := arg.v.res.uses - {arg1} + {arg};
    }
  }

  /** The links at result a are symmetric, so that it can be removed. */
  ghost predicate Removable(g: Graph, a: ResultArg) {
    && a in g
    && (g[a].v.res != null ==> g[a].v.res in g && g[a].v.res != a && a in g[g[a].v.res].uses)
    && (forall u :: u in g[a].uses ==> u in g && g[u].v.res == a)
    && (forall r :: r in g && g[r].v.res == a ==> r in g[a].uses)
    && (forall r :: r in g && a in g[r].uses ==> g[a].v.res == r)
  }

  /** Removal of result a in progress: the users in `todo` still have to be reset. */
  ghost function Removing(g: Graph, a: ResultArg, todo: set<ResultArg>): (g': Graph)
    requires a in g
    ensures g'.Keys == g.Keys
  {
    map r | r in g ::
      if r == a then g[a].(uses := todo)
      else Cell(if r in g[a].uses && r !in todo then DefaultResult(g[r].v.typ) else g[r].v, g[r].uses - {a})
  }

  lemma RemovingDone(g: Graph, a: ResultArg)
    requires Removable(g, a)
    ensures Removing(g, a, {}) == Remove(g, {a})
  {
  }

  lemma RemovingStep(g: Graph, a: ResultArg, todo: set<ResultArg>, u: ResultArg, d: ResultArg)
    requires Removable(g, a) && u in todo && todo <= g[a].uses && d !in g
    ensures var before := Removing(g, a, todo)[d := Cell(DefaultResult(g[u].v.typ), {})];
            forall r :: r in g ==> Replace(before, u, d)[r] == Removing(g, a, todo - {u})[r]
  {
  }

  /** Takes a result out of the users of the result it refers to. */
  method Unlink(a: ResultArg, ghost s: set<ResultArg>)
    requires a in s && Removable(Snap(s), a)
    modifies s
    ensures Snap(s) == Removing(old(Snap(s)), a, old(a.uses))
  {
    ghost var g := Snap(s);
    assert g[a] == Cell(a.v, a.uses);
    if a.v.res != null {
      assert a in g[a.v.res].uses;  // otherwise the tree would be broken
      a.v.res.uses := a.v.res.uses - {a};
    }
    forall r | r in s
      ensures Snap(s)[r] == Removing(g, a, g[a].uses)[r]
    {
      assert r != g[a].v.res ==> a !in g[r].uses;
    }
  }

  /** Replaces a user of a removed result by the default of its type. */
  method ResetUser(u: ResultArg, ghost a: ResultArg, ghost todo: set<ResultArg>, ghost g: Graph,
                   ghost s: set<ResultArg>)
    requires g.Keys == s && Removable(g, a) && u in todo && todo <= g[a].uses
    requires Snap(s) == Removing(g, a, todo)
    modifies s
    ensures Snap(s) == Removing(g, a, todo - {u})
  {
    assert Snap(s)[u] == Cell(u.v, u.uses) && g[u].v.res == a;
    var d := new ResultArg(DefaultResult(u.v.typ));
    assert Snap(s + {d}) == Removing(g, a, todo)[d := Cell(DefaultResult(g[u].v.typ), {})];
    RemovingStep(g, a, todo, u, d);
    ReplaceResultArg(u, d, s + {d});
    assert forall r :: r in s ==> Snap(s)[r] == Snap(s + {d})[r];
  }

  /** Removes one result: it is unlinked and its users become defaults of their types. */
  method RemoveResult(a: ResultArg, ghost s: set<ResultArg>)
    requires a in s && Removable(Snap(s), a)
    modifies s
    ensures Snap(s) == Remove(old(Snap(s)), {a})
  {
    ghost var g := Snap(s);
    var todo := a.uses;
    assert g[a].uses == a.uses;
    Unlink(a, s);
    while todo != {}
      invariant todo <= g[a].uses
      invariant Snap(s) == Removing(g, a, todo)
      decreases todo
    {
      var u :| u in todo;
      ResetUser(u, a, todo, g, s);
      todo := todo - {u};
    }
    RemovingDone(g, a);
  }

  // ---- removing trees and calls ----

  /** In a valid graph the links at every result are symmetric. */
  lemma InvRemovable(order: seq<ResultArg>, g: Graph, a: ResultArg)
    requires Inv(order, {}, g) && g.Keys == Nodes(order) && a in order
    ensures Removable(g, a)
  {
    var i :| 0 <= i < |order| && order[i] == a;
    forall r | r in g && g[r].v.res != null
      ensures r in g[g[r].v.res].uses
    {
      var j :| 0 <= j < |order| && order[j] == r;
    }
    if g[a].v.res != null {
      var t :| 0 <= t < i && order[t] == g[a].v.res;
      assert order[t] != order[i];
    }
  }

  /** No result refers to itself or to a later one. */
  lemma NotForward(order: seq<ResultArg>, g: Graph, i: nat, j: nat)
    requires Inv(order, {}, g) && j <= i < |order|
    ensures g[order[j]].v.res != order[i]
  {
    assert forall t :: 0 <= t < j ==> order[..j][t] == order[t] != order[i];
  }

  lemma RemoveKeepsRemovable(g: Graph, d: set<ResultArg>, a: ResultArg)
    requires Removable(g, a) && a !in d && forall r :: r in g && g[r].v.res == a ==> r !in d
    ensures Removable(Remove(g, d), a)
  {
  }

  /** In a valid graph the results of a stretch can be removed from left to right. */
  lemma RemovableNext(pre: seq<ResultArg>, mid: seq<ResultArg>, post: seq<ResultArg>, g: Graph, k: nat)
    requires Inv(pre + mid + post, {}, g) && g.Keys == Nodes(pre + mid + post) && k < |mid|
    ensures Removable(Remove(g, Nodes(mid[..k])), mid[k])
  {
    var all, a := pre + mid + post, mid[k];
    assert all[|pre| + k] == a;
    InvRemovable(all, g, a);
    forall m | 0 <= m < k
      ensures mid[m] != a && mid[m] in g && g[mid[m]].v.res != a
    {
      assert all[|pre| + m] == mid[m];
      NotForward(all, g, |pre| + k, |pre| + m);
    }
    RemoveKeepsRemovable(g, Nodes(mid[..k]), a);
  }

  /** Removes a list of results, in order. */
  method RemoveResults(mid: seq<ResultArg>, ghost pre: seq<ResultArg>, ghost post: seq<ResultArg>,
                       ghost s: set<ResultArg>)
    requires s == Nodes(pre + mid + post) && Inv(pre + mid + post, {}, Snap(s))
    modifies s
    ensures Snap(s) == Remove(old(Snap(s)), Nodes(mid))
  {
    ghost var g := Snap(s);
    RemoveNone(g);
    assert Nodes(mid[..0]) == {};
    for k := 0 to |mid|
      invariant Snap(s) == Remove(g, Nodes(mid[..k]))
    {
      RemovableNext(pre, mid, post, g, k);
      RemoveResult(mid[k], s);
      RemoveOne(g, Nodes(mid[..k]), mid[k]);
      assert Nodes(mid[..k + 1]) == Nodes(mid[..k]) + {mid[k]};
    }
    assert mid[..|mid|] == mid;
  }

  // ---- results entering and leaving the program ----

  /** Results that nobody refers to and that nobody records as users, as left by a removal. */
  ghost predicate Detached(mid: seq<ResultArg>, g: Graph) {
    && (forall r :: r in mid && r in g ==> g[r].uses == {})
    && (forall r :: r in g ==> g[r].v.res !in mid && g[r].uses !! Nodes(mid))
  }

  lemma RemoveDetaches(g: Graph, mid: seq<ResultArg>)
    ensures Detached(mid, Remove(g, Nodes(mid)))
  {
  }

  /** None of the results in `rest` refers to a result in mid or records one as a user. */
  ghost predicate Unlinked(rest: set<ResultArg>, mid: seq<ResultArg>, g: Graph) {
    forall r :: r in rest && r in g ==> g[r].v.res !in mid && g[r].uses !! Nodes(mid)
  }

  /** Results can leave the program exactly if nothing that stays is linked with them. */
  lemma CutIff(pre: seq<ResultArg>, mid: seq<ResultArg>, post: seq<ResultArg>, pending: set<ResultArg>, g: Graph)
    requires Inv(pre + mid + post, pending, g) && pending !! Nodes(mid)
    ensures Inv(pre + post, pending, g) <==> Unlinked(Nodes(pre + post), mid, g)
  {
    CutDistinct(pre, mid, post);
    var all, left := pre + mid + post, pre + post;
    assert forall r :: r in left <==> r in Nodes(left);
    if Unlinked(Nodes(left), mid, g) {
      CutBackward(pre, mid, post, g);
      forall r, u | r in left && u in g[r].uses
        ensures (u in left || u in pending) && u in g && g[u].v.res == r
      {
        assert r in Nodes(all) && u !in Nodes(mid);
      }
    }
    if Inv(left, pending, g) {
      InvUnlinked(left, pending, mid, g);
    }
  }

  /** A valid program is not linked with anything outside. */
  lemma InvUnlinked(order: seq<ResultArg>, pending: set<ResultArg>, mid: seq<ResultArg>, g: Graph)
    requires Inv(order, pending, g) && Nodes(mid) !! Nodes(order) && Nodes(mid) !! pending
    ensures Unlinked(Nodes(order), mid, g)
  {
    forall r | r in Nodes(order) && r in g
      ensures g[r].v.res !in mid && g[r].uses !! Nodes(mid)
    {
      var i :| 0 <= i < |order| && order[i] == r;
      assert g[r].v.res != null ==> g[r].v.res in Nodes(order);
      assert forall u :: u in g[r].uses ==> u in Nodes(order) || u in pending;
    }
  }

  lemma CutBackward(pre: seq<ResultArg>, mid: seq<ResultArg>, post: seq<ResultArg>, g: Graph)
    requires var all := pre + mid + post; Nodes(all) <= g.Keys && Distinct(all) && Backward(all, g)
    requires Unlinked(Nodes(pre + post), mid, g)
    ensures Nodes(pre + post) <= g.Keys && Backward(pre + post, g)
  {
    CutDistinct(pre, mid, post);
    var all, left := pre + mid + post, pre + post;
    forall i | 0 <= i < |left| && g[left[i]].v.res != null
      ensures g[left[i]].v.res in left[..i] && g[left[i]].v.res in g && left[i] in g[g[left[i]].v.res].uses
    {
      var r, i' := left[i], if i < |pre| then i else i + |mid|;
      assert r == all[i'] && r in Nodes(left);
      CutEarlier(pre, mid, post, i, g[r].v.res);
    }
  }

  /** A later result still refers to one that leaves: the links are broken. */
  lemma CutBreaks(a: ResultArg, b: ResultArg, t: Type)
    requires a != b
    ensures var g := map[a := Cell(Value(t, null, 0, 0, 0), {b}), b := Cell(Value(t, a, 0, 0, 0), {})];
      Inv([a, b], {}, g) && !Inv([b], {}, g)
  {
    var order, g := [a, b], map[a := Cell(Value(t, null, 0, 0, 0), {b}), b := Cell(Value(t, a, 0, 0, 0), {})];
    assert order[..1] == [a] && order[0] == a && order[1] == b;
    assert Nodes(order) == {a, b} && Nodes([b]) == {b};
    assert [b][0] == b && [b][..0] == [] && g[[b][0]].v.res == a;
  }

  /** New results whose references resolve to results in `avail` or to earlier new ones; those that
      use them are among `users`. */
  ghost predicate Arriving(avail: set<ResultArg>, mid: seq<ResultArg>, users: set<ResultArg>, g: Graph) {
    && Nodes(mid) <= g.Keys && Distinct(mid)
    && (forall i :: 0 <= i < |mid| && g[mid[i]].v.res != null ==>
          && (g[mid[i]].v.res in avail || g[mid[i]].v.res in mid[..i])
          && g[mid[i]].v.res in g && mid[i] in g[g[mid[i]].v.res].uses)
    && (forall r, u :: r in mid && u in g[r].uses ==> u in users && u in g && g[u].v.res == r)
  }

  /** New results can enter the program wherever everything they refer to comes before. */
  lemma InsertKeepsInv(pre: seq<ResultArg>, mid: seq<ResultArg>, post: seq<ResultArg>, pending: set<ResultArg>,
                       g: Graph)
    requires Inv(pre + post, pending, g) && Arriving(Nodes(pre), mid, pending, g)
    requires Nodes(mid) <= pending && Nodes(mid) !! Nodes(pre + post)
    ensures Inv(pre + mid + post, pending - Nodes(mid), g)
  {
    var all, left := pre + mid + post, pre + post;
    InsertDistinct(pre, mid, post);
    InsertBackward(pre, mid, post, g);
    forall r, u | r in all && u in g[r].uses
      ensures (u in all || u in pending - Nodes(mid)) && u in g && g[u].v.res == r
    {
      assert r in left || r in mid;
      assert u in left ==> u in all;
    }
  }

  lemma InsertDistinct(pre: seq<ResultArg>, mid: seq<ResultArg>, post: seq<ResultArg>)
    requires Distinct(pre + post) && Distinct(mid) && Nodes(mid) !! Nodes(pre + post)
    ensures Distinct(pre + mid + post)
  {
    var all, left := pre + mid + post, pre + post;
    forall i, j | 0 <= i < j < |all|
      ensures all[i] != all[j]
    {
      var new_i, new_j := |pre| <= i < |pre| + |mid|, |pre| <= j < |pre| + |mid|;
      var a := if new_i then mid[i - |pre|] else left[if i < |pre| then i else i - |mid|];
      var b := if new_j then mid[j - |pre|] else left[if j < |pre| then j else j - |mid|];
      assert all[i] == a && all[j] == b;
      assert new_i ==> a in Nodes(mid);
      assert new_j ==> b in Nodes(mid);
      assert !new_i ==> a in Nodes(left);
      assert !new_j ==> b in Nodes(left);
    }
  }

  /** What stands at and before position i once mid has been inserted. */
  lemma InsertEarlier(pre: seq<ResultArg>, mid: seq<ResultArg>, post: seq<ResultArg>, i: nat)
    requires i < |pre + mid + post|
    ensures var all, left := pre + mid + post, pre + post;
      if |pre| <= i < |pre| + |mid| then
        all[i] == mid[i - |pre|] && all[..i] == pre + mid[..i - |pre|]
      else
        var k := if i < |pre| then i else i - |mid|;
        all[i] == left[k] && forall t :: t in left[..k] ==> t in all[..i]
  {
    var all, left := pre + mid + post, pre + post;
    if i < |pre| {
      assert left[..i] == all[..i];
    } else if i < |pre| + |mid| {
      assert all[..i] == pre + mid[..i - |pre|];
    } else {
      var k := i - |mid|;
      assert left[..k] == pre + post[..k - |pre|];
      assert all[..i] == pre + mid + post[..k - |pre|];
    }
  }

  lemma InsertBackward(pre: seq<ResultArg>, mid: seq<ResultArg>, post: seq<ResultArg>, g: Graph)
    requires Nodes(pre + post) <= g.Keys && Backward(pre + post, g) && Arriving(Nodes(pre), mid, g.Keys, g)
    ensures Nodes(pre + mid + post) <= g.Keys && Backward(pre + mid + post, g)
  {
    var all, left := pre + mid + post, pre + post;
    forall r | r in all
      ensures r in g
    {
      assert r in Nodes(left) || r in Nodes(mid);
    }
    forall i | 0 <= i < |all| && g[all[i]].v.res != null
      ensures g[all[i]].v.res in all[..i] && g[all[i]].v.res in g && all[i] in g[g[all[i]].v.res].uses
    {
      InsertEarlier(pre, mid, post, i);
    }
  }

  /** An argument can take over a reference to a result that comes before it. */
  lemma ReplaceKeepsInv(order: seq<ResultArg>, pending: set<ResultArg>, g: Graph, i: nat, arg1: ResultArg)
    requires Inv(order, pending, g) && i < |order| && arg1 in g && arg1 !in order && g[arg1].uses == {}
    requires g[arg1].v.res != null ==> g[arg1].v.res in order[..i] && arg1 in g[g[arg1].v.res].uses
    ensures Inv(order, pending - {arg1}, Replace(g, order[i], arg1))
  {
    var arg := order[i];
    var g' := Replace(g, arg, arg1);
    assert forall r :: r in order ==> r in Nodes(order);
    forall j | 0 <= j < |order| && g'[order[j]].v.res != null
      ensures g'[order[j]].v.res in order[..j] && g'[order[j]].v.res in g' && order[j] in g'[g'[order[j]].v.res].uses
    {
      if j != i {
        assert order[j] != arg;
      } else {
        assert g[arg1].v.res in Nodes(order);
      }
    }
    forall r, u | r in order && u in g'[r].uses
      ensures (u in order || u in pending - {arg1}) && u in g' && g'[u].v.res == r
    {
      if u != arg {
        assert u in g[r].uses;
      }
    }
  }

  /** Removing results at the end of the program changes no argument before them. */
  lemma RemoveTail(pre: seq<ResultArg>, mid: seq<ResultArg>, g: Graph)
    requires Inv(pre + mid, {}, g)
    ensures forall r :: r in pre ==> r in g && Remove(g, Nodes(mid))[r] == g[r].(uses := g[r].uses - Nodes(mid))
  {
    var all := pre + mid;
    forall i | 0 <= i < |pre|
      ensures pre[i] in Nodes(all) && g[pre[i]].v.res !in mid && pre[i] !in mid
    {
      assert pre[i] == all[i];
      forall m | 0 <= m < |mid|
        ensures mid[m] != pre[i] && g[pre[i]].v.res != mid[m]
      {
        assert mid[m] == all[|pre| + m];
        NotForward(all, g, |pre| + m, i);
      }
    }
  }
}
