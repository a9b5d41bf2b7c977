/** Cloning: every argument is copied, and references are redirected to the copies through the map
    of results copied so far. The copy is a separate graph of the same shape. */
module ProgClone {
  import opened ProgTypes
  import opened DefUse
  import opened ArgNodes

  type Copies = map<ResultArg, ResultArg>

  ghost predicate Injective(m: Copies) {
    forall r, q :: r in m && q in m && m[r] == m[q] ==> r == q
  }

  function Redirected(v: Value, m: Copies): Value {
    v.(res := if v.res == null then null else if v.res in m then m[v.res] else v.res)
  }

  ghost function Image(us: set<ResultArg>, m: Copies): set<ResultArg> {
    set u | u in us && u in m :: m[u]
  }

  /** The tree with every result replaced by its copy. */
  function Renamed(t: Tree, m: Copies): Tree
    decreases t, 0
  {
    match t
    case Leaf(_) => t
    case Pointer(_, _, _, pointee) => if pointee.Some? then t.(pointee := Some(Renamed(pointee.value, m))) else t
    case Group(typ, inner) => Group(typ, RenamedSeq(inner, m))
    case Union(typ, option) => Union(typ, Renamed(option, m))
    case Result(r) => if r in m then Result(m[r]) else t
  }

  function RenamedSeq(ts: seq<Tree>, m: Copies): seq<Tree>
    decreases ts
  {
    if ts == [] then [] else [Renamed(ts[0], m)] + RenamedSeq(ts[1..], m)
  }

  function RenamedCall(c: HCall, m: Copies): HCall {
    HCall(c.meta, RenamedSeq(c.args, m), if c.ret != null && c.ret in m then m[c.ret] else c.ret)
  }

  function RenamedCalls(cs: seq<HCall>, m: Copies): seq<HCall> {
    if cs == [] then [] else [RenamedCall(cs[0], m)] + RenamedCalls(cs[1..], m)
  }

  /** References of the graph are recorded, and records refer back. */
  ghost predicate Symmetric(g: Graph) {
    && (forall r :: r in g && g[r].v.res != null ==> g[r].v.res in g && r in g[g[r].v.res].uses)
    && (forall r, u :: r in g && u in g[r].uses ==> u in g && g[u].v.res == r)
  }

  /** m maps a part of the graph that refers only to itself to copies with cells c; of the recorded
      uses, the copies have those that are already copied. */
  ghost predicate CopyOf(m: Copies, g: Graph, c: Graph) {
    && m.Keys <= g.Keys && c.Keys == m.Values && Injective(m)
    && forall r :: r in m ==>
      && (g[r].v.res != null ==> g[r].v.res in m)
      && c[m[r]] == Cell(Redirected(g[r].v, m), Image(g[r].uses, m))
  }

  ghost predicate Copied(m: Copies, g: Graph)
    reads m.Values
  {
    CopyOf(m, g, Snap(m.Values))
  }

  /** The originals are as they were and apart from the copies. */
  ghost predicate Untouched(m: Copies, g: Graph)
    reads g.Keys
  {
    m.Values !! g.Keys && forall r :: r in g ==> r.v == g[r].v
  }

  method CloneResult(a: ResultArg, m: Copies, ghost g: Graph) returns (a1: ResultArg, m1: Copies)
    requires Symmetric(g) && Copied(m, g) && Untouched(m, g)
    requires a in g && a !in m && (a.v.res != null ==> a.v.res in m)
    modifies m.Values
    ensures fresh(a1) && m1 == m[a := a1] && Copied(m1, g) && Untouched(m1, g)
  {
    hide Symmetric, CopyOf;
    ghost var c := Snap(m.Values);
    a1 := CopyNode(a, m);
    m1 := m[a := a1];
    assert m1.Values == m.Values + {a1} by {
      assert m1[a] == a1;
      assert forall q :: q in m ==> m1[q] == m[q];
    }
    assert forall q :: q in m ==> m[q] in m.Values && c[m[q]] == old(Cell(m[q].v, m[q].uses));
    CopyStep(m, g, a, a1, c, Snap(m1.Values));
  }

  /** Allocates the copy of a result and records it at the copy of the result it refers to. */
  method CopyNode(a: ResultArg, m: Copies) returns (a1: ResultArg)
    requires a !in m.Values && (a.v.res != null ==> a.v.res in m)
    modifies m.Values
    ensures fresh(a1) && a1.uses == {} && a1.v == Redirected(a.v, m)
    ensures forall q :: q in m.Values ==> q.v == old(q.v) && q.uses == old(q.uses) + if a.v.res != null
      && q == m[a.v.res] then {a1} else {}
  {
    a1 := new ResultArg(a.v);
    if a1.v.res != null {
      var r := m[a1.v.res];
      a1.v := a1.v.(res := r);
      r.uses := r.uses + {a1};
    }
  }

  /** Copying one more result extends the copy. */
  lemma CopyStep(m: Copies, g: Graph, a: ResultArg, a1: ResultArg, c: Graph, c1: Graph)
    requires Symmetric(g) && CopyOf(m, g, c) && a in g && a !in m && a1 !in m.Values
    requires g[a].v.res != null ==> g[a].v.res in m
    requires c1.Keys == m.Values + {a1} && c1[a1] == Cell(Redirected(g[a].v, m), {})
    requires forall q :: q in c ==>
      c1[q] == c[q].(uses := c[q].uses + if g[a].v.res != null && q == m[g[a].v.res] then {a1} else {})
    ensures CopyOf(m[a := a1], g, c1)
  {
    hide Image, Symmetric, Injective;
    ImageStep(m, g, a, a1);
    var m1 := m[a := a1];
    assert m1[a] == a1 && forall q :: q in m ==> m1[q] == m[q];
    assert m1.Values == m.Values + {a1};
    if g[a].v.res != null {
      DistinctCopy(m, g[a].v.res);
    }
  }

  lemma DistinctCopy(m: Copies, t: ResultArg)
    requires Injective(m) && t in m
    ensures forall q :: q in m && q != t ==> m[q] != m[t]
  {
  }

  lemma ImageStep(m: Copies, g: Graph, a: ResultArg, a1: ResultArg)
    requires Symmetric(g) && m.Keys <= g.Keys && (forall r :: r in m && g[r].v.res != null ==> g[r].v.res in m)
    requires a in g && a !in m && (g[a].v.res != null ==> g[a].v.res in m) && a1 !in m.Values && Injective(m)
    ensures var m1 := m[a := a1];
      && Injective(m1) && Image(g[a].uses, m1) == {} && Redirected(g[a].v, m1) == Redirected(g[a].v, m)
      && forall q :: q in m ==>
        && Redirected(g[q].v, m1) == Redirected(g[q].v, m)
        && Image(g[q].uses, m1) == Image(g[q].uses, m) + if g[a].v.res == q then {a1} else {}
  {
    var m1 := m[a := a1];
    assert forall u :: u in g[a].uses ==> u !in m1;
    forall q | q in m
      ensures Image(g[q].uses, m1) == Image(g[q].uses, m) + if g[a].v.res == q then {a1} else {}
    {
      assert a in g[q].uses <==> g[a].v.res == q;
    }
  }

  /** References in `rs` resolve to results copied already or to earlier ones in rs. */
  ghost predicate Resolved(rs: seq<ResultArg>, done: set<ResultArg>, g: Graph) {
    && Nodes(rs) <= g.Keys && Distinct(rs) && Nodes(rs) !! done
    && forall i :: 0 <= i < |rs| && g[rs[i]].v.res != null ==> g[rs[i]].v.res in done || g[rs[i]].v.res in rs[..i]
  }

  lemma ResolvedSplit(a: seq<ResultArg>, b: seq<ResultArg>, done: set<ResultArg>, g: Graph)
    requires Resolved(a + b, done, g)
    ensures Resolved(a, done, g) && Resolved(b, done + Nodes(a), g)
  {
    var ab := a + b;
    forall i | 0 <= i < |a|
      ensures a[i] == ab[i] && a[..i] == ab[..i] && a[i] in Nodes(ab)
    {
    }
    forall i | 0 <= i < |b|
      ensures b[i] == ab[|a| + i] && ab[..|a| + i] == a + b[..i] && b[i] in Nodes(ab)
    {
    }
    assert forall i, j :: 0 <= i < |a| && 0 <= j < |b| ==> a[i] != b[j];
    assert forall i, j :: 0 <= i < j < |b| ==> b[i] != b[j];
  }

  /** m1 extends m by copies of `rs`. */
  ghost predicate Extends(m: Copies, m1: Copies, rs: seq<ResultArg>) {
    m1.Keys == m.Keys + Nodes(rs) && forall r :: r in m ==> m1[r] == m[r]
  }

  lemma {:induction false} RenamedMore(t: Tree, m: Copies, m1: Copies)
    requires Nodes(Results(t)) <= m.Keys && forall r :: r in m ==> r in m1 && m1[r] == m[r]
    ensures Renamed(t, m1) == Renamed(t, m)
    decreases t, 0
  {
    match t
    case Pointer(_, _, _, pointee) =>
      if pointee.Some? {
        RenamedMore(pointee.value, m, m1);
      }
    case Group(_, inner) => RenamedSeqMore(inner, m, m1);
    case Union(_, option) => RenamedMore(option, m, m1);
    case Result(r) => assert r in Nodes(Results(t));
    case _ =>
  }

  lemma {:induction false} RenamedSeqMore(ts: seq<Tree>, m: Copies, m1: Copies)
    requires Nodes(ResultsSeq(ts)) <= m.Keys && forall r :: r in m ==> r in m1 && m1[r] == m[r]
    ensures RenamedSeq(ts, m1) == RenamedSeq(ts, m)
    decreases ts
  {
    if ts != [] {
      SplitNodes(ts);
      RenamedMore(ts[0], m, m1);
      RenamedSeqMore(ts[1..], m, m1);
    }
  }

  lemma {:induction false} RenamedCallsMore(cs: seq<HCall>, m: Copies, m1: Copies)
    requires Nodes(ResultsCalls(cs)) <= m.Keys && forall r :: r in m ==> r in m1 && m1[r] == m[r]
    ensures RenamedCalls(cs, m1) == RenamedCalls(cs, m)
  {
    if cs != [] {
      var c := cs[0];
      assert Nodes(ResultsCalls(cs)) == Nodes(ResultsCall(c)) + Nodes(ResultsCalls(cs[1..]));
      assert Nodes(ResultsSeq(c.args)) <= Nodes(ResultsCall(c));
      assert c.ret != null ==> ResultsCall(c)[|ResultsCall(c)| - 1] == c.ret;
      assert c.ret != null ==> c.ret in Nodes(ResultsCall(c));
      RenamedSeqMore(c.args, m, m1);
      RenamedCallsMore(cs[1..], m, m1);
    }
  }

  /** A new node with contents v is the tree t, whose parts are in the heap. */
  ghost predicate Completes(h: Heap, v: NodeVal, t: Tree) {
    match v
    case NConst(typ, val) => t == Leaf(ConstArg(typ, val))
    case NData(typ, buf, outSize) => buf in h && h[buf].NBytes? && t == Leaf(DataArg(typ, h[buf].data, outSize))
    case NBytes(_) => false
    case NPointer(typ, address, vmaSize, pointee) =>
      && t.Pointer? && t == Pointer(typ, address, vmaSize, t.pointee) && t.pointee.Some? == pointee.Some?
      && (pointee.Some? ==> Rep(h, pointee.value, t.pointee.value))
    case NUnion(typ, option) => t.Union? && t.typ == typ && Rep(h, option, t.option)
    case NGroup(typ, inner) => t.Group? && t.typ == typ && RepSeq(h, inner, t.inner)
  }

  lemma NodeRep(h: Heap, n: Node, v: NodeVal, t: Tree)
    requires n !in h && Completes(h, v, t)
    ensures Rep(h[n := v], Plain(n), t)
  {
    var h1 := h[n := v];
    match v
    case NPointer(_, _, _, pointee) =>
      if pointee.Some? {
        FootInside(h, pointee.value, t.pointee.value);
        RepFrame(h, h1, pointee.value, t.pointee.value);
      }
    case NUnion(_, option) =>
      FootInside(h, option, t.option);
      RepFrame(h, h1, option, t.option);
    case NGroup(_, inner) =>
      FootSeqInside(h, inner, t.inner);
      RepSeqFrame(h, h1, inner, t.inner);
    case _ =>
  }

  /** Copies an argument with everything below it. All nodes of the copy are new, buffers included. */
  method CloneTree(ref: Ref, m: Copies, ghost t: Tree, ghost g: Graph, ghost h: Heap)
    returns (ref1: Ref, m1: Copies, ghost h1: Heap)
    requires Current(h) && Rep(h, ref, t)
    requires Symmetric(g) && Copied(m, g) && Untouched(m, g) && Resolved(Results(t), m.Keys, g)
    modifies m.Values
    ensures Current(h) && Current(h1) && fresh(h1.Keys) && Rep(h1, ref1, Renamed(t, m1))
    ensures Extends(m, m1, Results(t)) && forall r :: r in m1 && r !in m ==> fresh(m1[r])
    ensures Copied(m1, g) && Untouched(m1, g)
    decreases t, 0
  {
    hide Copied, CopyOf, Symmetric, Untouched, Resolved;
    match ref
    case Res(r) =>
      ResolvedOne(r, m.Keys, g);
      var a1;
      a1, m1 := CloneOne(r, m, g);
      ref1, h1 := Res(a1), map[];
    case Plain(n) =>
      assert n.v == h[n];
      if n.v.NConst? || n.v.NData? {
        m1 := m;
        ref1, h1 := CloneLeaf(n, t, h);
        assert Results(t) == [];
      } else {
        ref1, m1, h1 := CloneInner(n, m, t, g, h);
      }
  }

  lemma ResolvedOne(r: ResultArg, done: set<ResultArg>, g: Graph)
    requires Resolved([r], done, g)
    ensures r in g && r !in done && (g[r].v.res != null ==> g[r].v.res in done)
  {
    assert [r][0] == r && r in Nodes([r]) && [r][..0] == [];
  }

  method CloneOne(r: ResultArg, m: Copies, ghost g: Graph) returns (a1: ResultArg, m1: Copies)
    requires Symmetric(g) && Copied(m, g) && Untouched(m, g)
    requires r in g && r !in m && (g[r].v.res != null ==> g[r].v.res in m)
    modifies m.Values
    ensures fresh(a1) && m1 == m[r := a1] && Extends(m, m1, [r]) && Copied(m1, g) && Untouched(m1, g)
  {
    hide Copied, CopyOf, Symmetric;
    a1, m1 := CloneResult(r, m, g);
    assert Nodes([r]) == {r};
  }

  /** A constant or data argument; its buffer is copied. */
  method CloneLeaf(n: Node, ghost t: Tree, ghost h: Heap) returns (ref1: Ref, ghost h1: Heap)
    requires Current(h) && Rep(h, Plain(n), t) && (n.v.NConst? || n.v.NData?)
    ensures Current(h1) && fresh(h1.Keys) && Rep(h1, ref1, t)
  {
    assert n.v == h[n];
    match n.v
    case NConst(_, _) =>
      var n1 := new Node(n.v);
      ref1, h1 := Plain(n1), map[n1 := n1.v];
    case NData(typ, buf, outSize) =>
      assert buf.v == h[buf];
      var buf1 := new Node(NBytes(buf.v.data));
      var n1 := new Node(NData(typ, buf1, outSize));
      ref1, h1 := Plain(n1), map[buf1 := buf1.v, n1 := n1.v];
  }

  /** An argument with parts, which are copied first. */
  method CloneInner(n: Node, m: Copies, ghost t: Tree, ghost g: Graph, ghost h: Heap)
    returns (ref1: Ref, m1: Copies, ghost h1: Heap)
    requires Current(h) && Rep(h, Plain(n), t) && !n.v.NConst? && !n.v.NData?
    requires Symmetric(g) && Copied(m, g) && Untouched(m, g) && Resolved(Results(t), m.Keys, g)
    modifies m.Values
    ensures Current(h) && Current(h1) && fresh(h1.Keys) && Rep(h1, ref1, Renamed(t, m1))
    ensures Extends(m, m1, Results(t)) && forall r :: r in m1 && r !in m ==> fresh(m1[r])
    ensures Copied(m1, g) && Untouched(m1, g)
    decreases t, -1
  {
    hide Copied, CopyOf, Symmetric, Untouched, Resolved, Foot;
    assert n.v == h[n];
    var v1 := n.v;
    ghost var h0: Heap := map[];
    match n.v {
      case NPointer(_, _, _, pointee) =>
        m1 := m;
        if pointee.Some? {
          var inner;
          inner, m1, h0 := CloneTree(pointee.value, m, t.pointee.value, g, h);
          v1 := n.v.(pointee := Some(inner));
        }
      case NUnion(typ, option) =>
        var option1;
        option1, m1, h0 := CloneTree(option, m, t.option, g, h);
        v1 := NUnion(typ, option1);
      case NGroup(typ, inner) =>
        var inner1;
        inner1, m1, h0 := CloneTrees(inner, m, t.inner, g, h);
        v1 := NGroup(typ, inner1);
    }
    hide Extends, Results;
    var n1 := new Node(v1);
    ref1, h1 := Plain(n1), h0[n1 := v1];
    NodeRep(h0, n1, v1, Renamed(t, m1));
  }

  /** Two copies that share no node. */
  lemma SeqRep(h0: Heap, h2: Heap, ref: Ref, t: Tree, refs: seq<Ref>, ts: seq<Tree>)
    requires h0.Keys !! h2.Keys && Rep(h0, ref, t) && RepSeq(h2, refs, ts)
    ensures RepSeq(h0 + h2, [ref] + refs, [t] + ts)
  {
    var h := h0 + h2;
    FootInside(h0, ref, t);
    RepFrame(h0, h, ref, t);
    FootSeqInside(h2, refs, ts);
    RepSeqFrame(h2, h, refs, ts);
    assert ([ref] + refs)[1..] == refs && ([t] + ts)[1..] == ts;
  }

  method CloneTrees(refs: seq<Ref>, m: Copies, ghost ts: seq<Tree>, ghost g: Graph, ghost h: Heap)
    returns (refs1: seq<Ref>, m1: Copies, ghost h1: Heap)
    requires Current(h) && RepSeq(h, refs, ts)
    requires Symmetric(g) && Copied(m, g) && Untouched(m, g) && Resolved(ResultsSeq(ts), m.Keys, g)
    modifies m.Values
    ensures Current(h) && Current(h1) && fresh(h1.Keys) && RepSeq(h1, refs1, RenamedSeq(ts, m1))
    ensures Extends(m, m1, ResultsSeq(ts)) && forall r :: r in m1 && r !in m ==> fresh(m1[r])
    ensures Copied(m1, g) && Untouched(m1, g)
    decreases ts
  {
    hide Copied, Symmetric, Resolved, Untouched, Renamed, Results, Rep;
    if refs == [] {
      refs1, m1, h1 := [], m, map[];
    } else {
      ResolvedSplit(Results(ts[0]), ResultsSeq(ts[1..]), m.Keys, g);
      SplitNodes(ts);
      var first, m0;
      ghost var h0, h2;
      first, m0, h0 := CloneTree(refs[0], m, ts[0], g, h);
      var rest;
      assert forall r :: r in m0 ==> m0[r] in m.Values || fresh(m0[r]);
      rest, m1, h2 := CloneTrees(refs[1..], m0, ts[1..], g, h);
      RenamedMore(ts[0], m0, m1);
      refs1, h1 := [first] + rest, h0 + h2;
      SeqRep(h0, h2, first, Renamed(ts[0], m1), rest, RenamedSeq(ts[1..], m1));
    }
  }

  lemma ResolvedRetFirst(rs: seq<ResultArg>, ret: ResultArg, done: set<ResultArg>, g: Graph)
    requires Resolved(rs + [ret], done, g) && g[ret].v.res == null
    ensures Resolved([ret], done, g) && Resolved(rs, done + {ret}, g)
  {
    ResolvedSplit(rs, [ret], done, g);
    assert ret in Nodes([ret]);
    assert [ret][..0] == [];
    assert (rs + [ret])[|rs|] == ret;
    assert forall i :: 0 <= i < |rs| ==> (rs + [ret])[i] == rs[i];
  }

  method CloneCall(nc: NCall, m: Copies, ghost c: HCall, ghost g: Graph, ghost h: Heap)
    returns (nc1: NCall, m1: Copies, ghost h1: Heap)
    requires Current(h) && RepCall(h, nc, c)
    requires Symmetric(g) && Copied(m, g) && Untouched(m, g) && Resolved(ResultsCall(c), m.Keys, g)
    requires c.ret != null ==> c.ret in g && g[c.ret].v.res == null
    modifies m.Values
    ensures Current(h) && Current(h1) && fresh(h1.Keys) && RepCall(h1, nc1, RenamedCall(c, m1))
    ensures Extends(m, m1, ResultsCall(c)) && forall r :: r in m1 && r !in m ==> fresh(m1[r])
    ensures Copied(m1, g) && Untouched(m1, g)
  {
    hide Copied, Symmetric, Resolved, Distinct, RepSeq;
    var m0 := m;
    var ret: ResultArg? := null;
    if nc.ret != null {
      ResolvedRetFirst(ResultsSeq(c.args), c.ret, m.Keys, g);
      assert Nodes([c.ret]) == {c.ret};
      var ref;
      ghost var h0;
      ref, m0, h0 := CloneTree(Res(nc.ret), m, Result(c.ret), g, h);
      ret := ref.r;
    } else {
      assert ResultsCall(c) == ResultsSeq(c.args);
    }
    var args;
    args, m1, h1 := CloneTrees(nc.args, m0, c.args, g, h);
    nc1 := NCall(nc.meta, args, ret);
    assert Nodes(ResultsCall(c)) == Nodes(ResultsSeq(c.args)) + if c.ret != null then {c.ret} else {};
  }

  lemma NothingCopied(g: Graph)
    ensures CopyOf(map[], g, map[]) && RenamedCalls([], map[]) == [] && ResultsCalls([]) == [] && Nodes([]) == {}
  {
  }

  lemma HeadCalls(cs: seq<HCall>, i: nat)
    requires i < |cs|
    ensures ResultsCalls(cs[i..]) == ResultsCall(cs[i]) + ResultsCalls(cs[i + 1..])
  {
    assert cs[i..][0] == cs[i] && cs[i..][1..] == cs[i + 1..];
  }

  /** One more call is copied. */
  lemma CloneStep(cs: seq<HCall>, i: nat, m0: Copies, m: Copies, h0: Heap, h2: Heap, ncs: seq<NCall>, nc: NCall)
    requires i < |cs| && RepCalls(h0, ncs, RenamedCalls(cs[..i], m0)) && RepCall(h2, nc, RenamedCall(cs[i], m))
    requires m0.Keys == Nodes(ResultsCalls(cs[..i])) && Extends(m0, m, ResultsCall(cs[i])) && h0.Keys !! h2.Keys
    ensures RepCalls(h0 + h2, ncs + [nc], RenamedCalls(cs[..i + 1], m))
    ensures m.Keys == Nodes(ResultsCalls(cs[..i + 1]))
  {
    hide RepCall, FootCall, RenamedCall, RenamedCalls, ResultsCalls, ResultsCall;
    RenamedCallsMore(cs[..i], m0, m);
    SnocCalls(cs, i, m);
    RepCallsJoin(h0, h2, ncs, RenamedCalls(cs[..i], m), [nc], [RenamedCall(cs[i], m)]);
  }

  method CloneCalls(ncs: seq<NCall>, ghost cs: seq<HCall>, ghost g: Graph, ghost h: Heap)
    returns (ncs1: seq<NCall>, m: Copies, ghost h1: Heap)
    requires Current(h) && RepCalls(h, ncs, cs)
    requires Symmetric(g) && Untouched(map[], g) && Resolved(ResultsCalls(cs), {}, g)
    requires forall c :: c in cs && c.ret != null ==> c.ret in g && g[c.ret].v.res == null
    ensures Current(h1) && fresh(h1.Keys) && RepCalls(h1, ncs1, RenamedCalls(cs, m))
    ensures m.Keys == Nodes(ResultsCalls(cs)) && fresh(m.Values) && Copied(m, g)
  {
    hide CopyOf, Symmetric, Resolved, Untouched, ResultsCall, RenamedCall, ResultsCalls, RenamedCalls, RepCall,
      FootCall;
    hide Nodes;
    ncs1, m, h1 := [], map[], map[];
    NothingCopied(g);
    assert m.Values == {} && Snap({}) == map[];
    assert cs[..0] == [] && cs[0..] == cs;
    for i := 0 to |ncs|
      invariant Current(h) && Current(h1) && fresh(h1.Keys) && RepCalls(h1, ncs1, RenamedCalls(cs[..i], m))
      invariant m.Keys == Nodes(ResultsCalls(cs[..i]))
      invariant fresh(m.Values) && Copied(m, g) && Untouched(m, g)
      invariant Resolved(ResultsCalls(cs[i..]), m.Keys, g)
    {
      HeadCalls(cs, i);
      ResolvedSplit(ResultsCall(cs[i]), ResultsCalls(cs[i + 1..]), m.Keys, g);
      ghost var m0, h0 := m, h1;
      var c1;
      ghost var h2;
      c1, m, h2 := CloneCall(ncs[i], m, cs[i], g, h);
      assert forall r :: r in m0 ==> m[r] == m0[r] && m0[r] in m0.Values;
      CloneStep(cs, i, m0, m, h0, h2, ncs1, c1);
      ncs1, h1 := ncs1 + [c1], h0 + h2;
    }
    assert cs[..|cs|] == cs;
  }

  lemma {:induction false} SnocCalls(cs: seq<HCall>, i: nat, m: Copies)
    requires i < |cs|
    ensures RenamedCalls(cs[..i + 1], m) == RenamedCalls(cs[..i], m) + [RenamedCall(cs[i], m)]
    ensures ResultsCalls(cs[..i + 1]) == ResultsCalls(cs[..i]) + ResultsCall(cs[i])
  {
    if i > 0 {
      SnocCalls(cs[1..], i - 1, m);
      assert cs[..i + 1][1..] == cs[1..][..i] && cs[..i][1..] == cs[1..][..i - 1];
    } else {
      assert cs[..1] == [cs[0]] && cs[..0] == [] && cs[..1][1..] == [];
    }
  }

  // ---- the copy has the shape of the original ----

  ghost function Mapped(rs: seq<ResultArg>, m: Copies): (qs: seq<ResultArg>)
    ensures |qs| == |rs| && forall i :: 0 <= i < |rs| ==> qs[i] == if rs[i] in m then m[rs[i]] else rs[i]
  {
    seq(|rs|, i requires 0 <= i < |rs| => if rs[i] in m then m[rs[i]] else rs[i])
  }

  lemma MappedSplit(a: seq<ResultArg>, b: seq<ResultArg>, m: Copies)
    ensures Mapped(a + b, m) == Mapped(a, m) + Mapped(b, m)
  {
  }

  lemma {:induction false} ResultsRenamed(t: Tree, m: Copies)
    ensures Results(Renamed(t, m)) == Mapped(Results(t), m)
    decreases t, 0
  {
    match t
    case Pointer(_, _, _, pointee) =>
      if pointee.Some? {
        ResultsRenamed(pointee.value, m);
      }
    case Group(_, inner) => ResultsSeqRenamed(inner, m);
    case Union(_, option) => ResultsRenamed(option, m);
    case _ =>
  }

  lemma {:induction false} ResultsSeqRenamed(ts: seq<Tree>, m: Copies)
    ensures ResultsSeq(RenamedSeq(ts, m)) == Mapped(ResultsSeq(ts), m)
    decreases ts
  {
    if ts != [] {
      ResultsRenamed(ts[0], m);
      ResultsSeqRenamed(ts[1..], m);
      MappedSplit(Results(ts[0]), ResultsSeq(ts[1..]), m);
    }
  }

  lemma {:induction false} ResultsCallsRenamed(cs: seq<HCall>, m: Copies)
    ensures ResultsCalls(RenamedCalls(cs, m)) == Mapped(ResultsCalls(cs), m)
  {
    if cs != [] {
      var c := cs[0];
      ResultsSeqRenamed(c.args, m);
      var ret := if c.ret != null then [c.ret] else [];
      MappedSplit(ResultsSeq(c.args), ret, m);
      assert ResultsCall(RenamedCall(c, m)) == Mapped(ResultsCall(c), m);
      ResultsCallsRenamed(cs[1..], m);
      MappedSplit(ResultsCall(c), ResultsCalls(cs[1..]), m);
    }
  }

  /** The copy of a valid graph is valid. */
  lemma CopyKeepsInv(order: seq<ResultArg>, g: Graph, m: Copies, c: Graph)
    requires Inv(order, {}, g) && m.Keys == g.Keys == Nodes(order) && CopyOf(m, g, c)
    ensures Inv(Mapped(order, m), {}, c)
  {
    CopyBackward(order, g, m, c);
    CopyClosed(order, g, m, c);
    var copy := Mapped(order, m);
    forall i, j | 0 <= i < j < |order|
      ensures copy[i] != copy[j]
    {
      assert order[i] in Nodes(order) && order[j] in Nodes(order);
    }
  }

  lemma CopyClosed(order: seq<ResultArg>, g: Graph, m: Copies, c: Graph)
    requires m.Keys == g.Keys == Nodes(order) && Closed(order, {}, g) && CopyOf(m, g, c)
    ensures Nodes(Mapped(order, m)) <= c.Keys && Closed(Mapped(order, m), {}, c)
  {
    var copy := Mapped(order, m);
    forall i | 0 <= i < |order|
      ensures order[i] in m && copy[i] == m[order[i]] && copy[i] in c
    {
      assert order[i] in Nodes(order);
    }
    forall r, u | r in copy && u in c[r].uses
      ensures u in copy && u in c && c[u].v.res == r
    {
      var i :| 0 <= i < |copy| && copy[i] == r;
      var w :| w in g[order[i]].uses && w in m && u == m[w];
      var j :| 0 <= j < |order| && order[j] == w;
      assert copy[j] == u;
    }
  }

  lemma CopyBackward(order: seq<ResultArg>, g: Graph, m: Copies, c: Graph)
    requires Inv(order, {}, g) && m.Keys == g.Keys == Nodes(order) && CopyOf(m, g, c)
    ensures Nodes(Mapped(order, m)) <= c.Keys && Backward(Mapped(order, m), c)
  {
    var copy := Mapped(order, m);
    forall i | 0 <= i < |order|
      ensures order[i] in m && copy[i] == m[order[i]] && copy[i] in c
    {
      assert order[i] in Nodes(order);
    }
    forall i | 0 <= i < |copy| && c[copy[i]].v.res != null
      ensures c[copy[i]].v.res in copy[..i] && c[copy[i]].v.res in c && copy[i] in c[c[copy[i]].v.res].uses
    {
      var t := g[order[i]].v.res;
      assert c[copy[i]] == Cell(Redirected(g[order[i]].v, m), Image(g[order[i]].uses, m));
      assert t != null;
      var k :| 0 <= k < i && order[k] == t;
      assert copy[..i][k] == m[t];
    }
  }

  lemma InvSymmetric(order: seq<ResultArg>, g: Graph)
    requires Inv(order, {}, g) && g.Keys == Nodes(order)
    ensures Symmetric(g) && Resolved(order, {}, g)
  {
    forall r | r in g && g[r].v.res != null
      ensures g[r].v.res in g && r in g[g[r].v.res].uses
    {
      var i :| 0 <= i < |order| && order[i] == r;
    }
  }

  // ---- when the table of copies suffices ----

  /** The results of calls in the order in which they are copied: return values first. */
  function CloneOrder(cs: seq<HCall>): seq<ResultArg> {
    if cs == [] then [] else CloneCallOrder(cs[0]) + CloneOrder(cs[1..])
  }

  /** Every result finds the copy of the result it refers to in the table. */
  ghost predicate TableSuffices(order: seq<ResultArg>, done: set<ResultArg>, g: Graph)
    requires Nodes(order) <= g.Keys
    decreases order
  {
    || order == []
    || (assert order[0] in Nodes(order); (g[order[0]].v.res != null ==> g[order[0]].v.res in done)
        && TableSuffices(order[1..], done + {order[0]}, g))
  }

  ghost predicate RefersBack(order: seq<ResultArg>, done: set<ResultArg>, g: Graph)
    requires Nodes(order) <= g.Keys
  {
    forall i :: 0 <= i < |order| && g[order[i]].v.res != null ==>
      g[order[i]].v.res in done || g[order[i]].v.res in order[..i]
  }

  /** The table of copies suffices exactly if every reference points to a result that is copied before. */
  lemma {:induction false} TableSufficesIff(order: seq<ResultArg>, done: set<ResultArg>, g: Graph)
    requires Nodes(order) <= g.Keys
    ensures TableSuffices(order, done, g) <==> RefersBack(order, done, g)
    decreases order
  {
    if order != [] {
      var a, rest := order[0], order[1..];
      TableSufficesIff(rest, done + {a}, g);
      forall i | 0 <= i < |rest|
        ensures rest[i] == order[i + 1] && forall t :: t in order[..i + 1] <==> t == a || t in rest[..i]
      {
        assert order[..i + 1] == [a] + rest[..i];
      }
      assert order[..0] == [];
      if RefersBack(order, done, g) {
        forall i | 0 <= i < |rest| && g[rest[i]].v.res != null
          ensures g[rest[i]].v.res in done + {a} || g[rest[i]].v.res in rest[..i]
        {
          assert g[order[i + 1]].v.res in done || g[order[i + 1]].v.res in order[..i + 1];
        }
      }
      if RefersBack(rest, done + {a}, g) && (g[a].v.res != null ==> g[a].v.res in done) {
        forall i | 0 <= i < |order| && g[order[i]].v.res != null
          ensures g[order[i]].v.res in done || g[order[i]].v.res in order[..i]
        {
          if i > 0 {
            assert g[rest[i - 1]].v.res in done + {a} || g[rest[i - 1]].v.res in rest[..i - 1];
          }
        }
      }
    }
  }

  /** Validation accepts an argument that refers to itself; its copy finds no copy of what it refers to. */
  lemma SelfReferenceMissing(a: ResultArg, t: Type)
    ensures var g := map[a := Cell(Value(t, a, 0, 0, 0), {a})]; Nodes([a]) <= g.Keys && !TableSuffices([a], {}, g)
  {
    assert [a][0] == a;
  }

  lemma {:induction false} TableSplit(a: seq<ResultArg>, b: seq<ResultArg>, done: set<ResultArg>, g: Graph)
    requires Nodes(a) <= g.Keys && Nodes(b) <= g.Keys
    requires TableSuffices(a, done, g) && TableSuffices(b, done + Nodes(a), g)
    ensures Nodes(a + b) <= g.Keys && TableSuffices(a + b, done, g)
    decreases a
  {
    if a == [] {
      assert a + b == b && done + Nodes(a) == done;
    } else {
      assert (a + b)[0] == a[0] && (a + b)[1..] == a[1..] + b;
      assert done + {a[0]} + Nodes(a[1..]) == done + Nodes(a);
      TableSplit(a[1..], b, done + {a[0]}, g);
    }
  }

  lemma ResolvedSuffices(rs: seq<ResultArg>, done: set<ResultArg>, g: Graph)
    requires Resolved(rs, done, g)
    ensures TableSuffices(rs, done, g)
  {
    TableSufficesIff(rs, done, g);
  }

  function CloneCallOrder(c: HCall): seq<ResultArg> {
    (if c.ret != null then [c.ret] else []) + ResultsSeq(c.args)
  }

  lemma CallSuffices(c: HCall, done: set<ResultArg>, g: Graph)
    requires Resolved(ResultsCall(c), done, g) && (c.ret != null ==> c.ret in g && g[c.ret].v.res == null)
    ensures Nodes(CloneCallOrder(c)) == Nodes(ResultsCall(c)) <= g.Keys
    ensures TableSuffices(CloneCallOrder(c), done, g)
  {
    hide Resolved, TableSuffices, ResultsSeq;
    var args := ResultsSeq(c.args);
    ResolvedNodes(ResultsCall(c), done, g);
    if c.ret != null {
      ResolvedRetFirst(args, c.ret, done, g);
      ResolvedSuffices([c.ret], done, g);
      assert Nodes([c.ret]) == {c.ret};
      ResolvedSuffices(args, done + {c.ret}, g);
      TableSplit([c.ret], args, done, g);
    } else {
      assert ResultsCall(c) == args && CloneCallOrder(c) == args;
      ResolvedSuffices(args, done, g);
    }
  }

  /** A program that refers strictly backwards can be copied, return values first. */
  lemma {:induction false} ValidSuffices(cs: seq<HCall>, done: set<ResultArg>, g: Graph)
    requires Resolved(ResultsCalls(cs), done, g)
    requires forall c :: c in cs && c.ret != null ==> c.ret in g && g[c.ret].v.res == null
    ensures Nodes(CloneOrder(cs)) == Nodes(ResultsCalls(cs)) <= g.Keys && TableSuffices(CloneOrder(cs), done, g)
    decreases cs
  {
    hide Resolved, TableSuffices, ResultsCall, CloneCallOrder;
    if cs == [] {
      NothingSuffices(done, g);
    } else {
      var c := cs[0];
      ResolvedSplit(ResultsCall(c), ResultsCalls(cs[1..]), done, g);
      CallSuffices(c, done, g);
      ValidSuffices(cs[1..], done + Nodes(ResultsCall(c)), g);
      TableSplit(CloneCallOrder(c), CloneOrder(cs[1..]), done, g);
      NodesCat(CloneCallOrder(c), CloneOrder(cs[1..]));
      NodesCat(ResultsCall(c), ResultsCalls(cs[1..]));
    }
  }

  lemma NodesCat(a: seq<ResultArg>, b: seq<ResultArg>)
    ensures Nodes(a + b) == Nodes(a) + Nodes(b)
  {
  }

  lemma NothingSuffices(done: set<ResultArg>, g: Graph)
    ensures TableSuffices([], done, g)
  {
  }

  lemma ResolvedNodes(rs: seq<ResultArg>, done: set<ResultArg>, g: Graph)
    requires Resolved(rs, done, g)
    ensures Nodes(rs) <= g.Keys
  {
  }
}
