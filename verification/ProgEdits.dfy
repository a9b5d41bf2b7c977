/** Edits of whole programs: removing a call, inserting generated calls, regenerating an argument,
    cloning, and splicing one program into another. */
module ProgEdits {
  import opened ProgTypes
  import opened DefUse
  import opened ArgNodes
  import opened ReplaceTrees
  import opened Places
  import opened ProgClone

  /** Return values refer to nothing. */
  ghost predicate RetsEmpty(calls: seq<HCall>, g: Graph) {
    forall c :: c in calls && c.ret != null ==> c.ret in g && g[c.ret].v.res == null
  }

  /** A program: calls with their argument nodes. The ghost fields say which trees the nodes hold and
      which nodes belong to the program. */
  class Prog {
    var nodes: seq<NCall>
    ghost var calls: seq<HCall>
    ghost var own: set<Node>

    constructor (nodes: seq<NCall>, ghost calls: seq<HCall>, ghost own: set<Node>)
      ensures this.nodes == nodes && this.calls == calls && this.own == own
    {
      this.nodes, this.calls, this.own := nodes, calls, own;
    }

    ghost function Order(): seq<ResultArg>
      reads this
    {
      ResultsCalls(calls)
    }

    ghost function Own(): set<ResultArg>
      reads this
    {
      Nodes(Order())
    }

    ghost function Links(): (g: Graph)
      reads this, Own()
      ensures g.Keys == Own()
    {
      Snap(Own())
    }

    ghost predicate Linked()
      reads this, Own()
    {
      Inv(Order(), {}, Links()) && RetsEmpty(calls, Links())
    }

    ghost predicate Shaped()
      reads this, own
    {
      RepCalls(Shape(own), nodes, calls)
    }

    ghost predicate Valid()
      reads this, Own(), own
    {
      Linked() && Shaped()
    }

    /** Removes a call; references to its results become defaults. */
    method RemoveCall(idx: nat)
      requires Valid() && idx < |calls|
      modifies this, Own()
      ensures Valid() && calls == old(calls[..idx] + calls[idx + 1..])
      ensures Snap(old(Own())) == Remove(old(Links()), Nodes(ResultsCall(old(calls[idx]))))
      ensures Own() <= old(Own()) && own == old(own)
    {
      hide ResultsCalls, ResultsCall, Inv, RetsEmpty, RepCall, FootCall;
      ghost var before, g, h := calls, Links(), Shape(own);
      assert allocated(Order());
      var mid := CollectCall(nodes[idx], calls[idx], h);
      ghost var pre, post := ResultsCalls(calls[..idx]), ResultsCalls(calls[idx + 1..]);
      CallAt(calls, idx);
      RepCallsRemove(h, nodes, calls, idx);
      assert Links() == g && Order() == pre + mid + post;
      RemoveResults(mid, pre, post, Own());
      nodes := nodes[..idx] + nodes[idx + 1..];
      calls := calls[..idx] + calls[idx + 1..];
      assert Shape(own) == h;
      RemovedLinks(this, before, idx, g);
    }

    /** Inserts generated calls, whose references resolve to calls before them. */
    method InsertBefore(idx: nat, new_: seq<NCall>, ghost newCalls: seq<HCall>, ghost newOwn: set<Node>,
                        ghost s: set<ResultArg>)
      requires idx <= |calls| && Own() <= s && Ready(this, idx, newCalls, Nodes(ResultsCalls(newCalls)), Snap(s))
      requires Shaped() && own !! newOwn && RepCalls(Shape(newOwn), new_, newCalls)
      modifies this
      ensures Valid() && calls == old(calls[..idx]) + newCalls + old(calls[idx..])
      ensures Own() == old(Own()) + Nodes(ResultsCalls(newCalls)) && own == old(own) + newOwn
    {
      hide Ready, Inv, RetsEmpty, ResultsCalls, RepCall, FootCall;
      ghost var mid, g := Nodes(ResultsCalls(newCalls)), Snap(s);
      ReadyInserts(this, idx, newCalls, mid, g);
      RepCallsInsertApart(Shape(own), Shape(newOwn), nodes, calls, idx, new_, newCalls);
      assert mid - mid == {};
      nodes := nodes[..idx] + new_ + nodes[idx..];
      calls := calls[..idx] + newCalls + calls[idx..];
      own := own + newOwn;
      assert Shape(own) == old(Shape(own)) + Shape(newOwn);
      InsertedNodes(old(calls), idx, newCalls);
      RestrictLinked(this, calls, s, g);
    }

    /** A fresh valid program of the same shape: same calls under the renaming m of results, and
        the same links under m. Nothing of this program is modified, and no node, buffer or result of it
        is shared. */
    method Clone() returns (p1: Prog, ghost m: Copies)
      requires Valid()
      ensures fresh(p1) && fresh(p1.Own()) && fresh(p1.own) && p1.Valid()
      ensures m.Keys == Own() && p1.calls == RenamedCalls(calls, m) && p1.Order() == Mapped(Order(), m)
      ensures CopyOf(m, Links(), p1.Links()) && p1.Own() == m.Values
      ensures forall r :: r in m ==> m[r].v == Redirected(r.v, m)
    {
      hide Inv, Symmetric, Resolved, CopyOf, RenamedCalls, ResultsCalls, Mapped, RepCalls;
      ghost var g := Links();
      assert allocated(Order());
      InvSymmetric(Order(), g);
      var nodes1, m1;
      ghost var h1;
      nodes1, m1, h1 := CloneCalls(nodes, calls, g, Shape(own));
      m := m1;
      p1 := new Prog(nodes1, RenamedCalls(calls, m), h1.Keys);
      assert Shape(p1.own) == h1;
      ResultsCallsRenamed(calls, m);
      MappedNodes(Order(), m);
      assert p1.Own() == m.Values && p1.Links() == Snap(m.Values);
      assert Links() == g;
      CopyKeepsInv(Order(), g, m, p1.Links());
      RenamedRets(calls, g, m, p1.Links());
      CopyValues(m, g, p1.Links());
    }

    /** Replaces an argument by a newly generated one, in place, and inserts the calls generated with it.
        The links change before the calls are in the program. */
    method RegenerateArg(at: Place, ref1: Ref, new_: seq<NCall>, ghost t1: Tree, ghost newCalls: seq<HCall>,
                         ghost newOwn: set<Node>, ghost s: set<ResultArg>)
      requires HasPlace(calls, at) && Own() <= s && (forall r :: r in s && r.v.res != null ==> r.v.res in s)
      requires Shaped() && own !! newOwn && Generated(Shape(newOwn), ref1, t1, new_, newCalls)
      requires var fresh_ := Nodes(ResultsCalls(newCalls)); var results := Nodes(Results(t1));
        && results <= s && fresh_ !! results && Distinct(Results(t1))
          && Ready(this, at.ci, newCalls, fresh_ + results, Snap(s))
        && Matching(TreeAt(calls, at), t1)
        && Fits(TreeAt(calls, at), t1, Nodes(ResultsCalls(calls[..at.ci])) + fresh_, Snap(s))
      modifies this, s, own, newOwn
      ensures Valid() && own == old(own) + newOwn
      ensures calls == old(var put := TreePut(calls, at, Replaced(TreeAt(calls, at), t1));
                           put[..at.ci] + newCalls + put[at.ci..])
      ensures Nodes(Results(old(TreeAt(calls, at)))) <= s
        && Snap(s) == Relinked(old(Snap(s)), old(TreeAt(calls, at)), t1)
    {
      hide Results, ResultsCalls, Inv, RetsEmpty, Fits, Matching, Replaced, Relinked, Ready, Distinct, TreePut;
      hide RepCalls, Generated, TreeAt, Prog.Shaped;
      ghost var t, g := TreeAt(calls, at), Snap(s);
      RegenerateInv(this, at, t1, newCalls, g);
      ReplaceAndInsert(at, ref1, new_, t1, newCalls, newOwn, s);
      RestrictLinked(this, calls, s, Relinked(g, t, t1));
    }

    /** The steps of both ways to put a generated argument and its calls into the program. */
    method ReplaceAndInsert(at: Place, ref1: Ref, new_: seq<NCall>, ghost t1: Tree, ghost newCalls: seq<HCall>,
                            ghost newOwn: set<Node>, ghost s: set<ResultArg>)
      requires HasPlace(calls, at) && (forall r :: r in s && r.v.res != null ==> r.v.res in s)
      requires Shaped() && own !! newOwn && Generated(Shape(newOwn), ref1, t1, new_, newCalls)
      requires Matching(TreeAt(calls, at), t1) && Nodes(Results(TreeAt(calls, at))) <= s && Nodes(Results(t1)) <= s
      modifies this, s, own, newOwn
      ensures Shaped() && own == old(own) + newOwn && Snap(s) == Relinked(old(Snap(s)), old(TreeAt(calls, at)), t1)
      ensures calls == old(var put := TreePut(calls, at, Replaced(TreeAt(calls, at), t1));
                           put[..at.ci] + newCalls + put[at.ci..])
    {
      hide Results, Matching, Replaced, Relinked, TreePut, RepCalls, Rep, Foot, Generated, Overwritten, RefIn, TreeAt;
      hide Shape, Current, Nodes, HasPath;
      ghost var t, h := TreeAt(calls, at), Shape(own + newOwn);
      ShapeSum(own, newOwn);
      RegenerateShape(Shape(own), Shape(newOwn), nodes, calls, at, ref1, t1, new_, newCalls);
      ghost var q, put := RefIn(h, nodes, calls, at), TreePut(calls, at, Replaced(t, t1));
      ghost var after := put[..at.ci] + newCalls + put[at.ci..];
      ReplaceAt(nodes, at, ref1, calls, t1, s, h);
      nodes := nodes[..at.ci] + new_ + nodes[at.ci..];
      calls := after;
      own := own + newOwn;
      ShapeIs(own, Overwritten(h, q, ref1, t));
    }

    /** Replaces a constant by a newly generated one. */
    method RegenerateConst(at: Place, val: u64)
      requires Valid() && HasPlace(calls, at) && TreeAt(calls, at).Leaf? && TreeAt(calls, at).arg.ConstArg?
      modifies this, Own(), own
      ensures Valid() && Own() == old(Own()) && old(own) <= own && fresh(own - old(own))
      ensures calls == old(TreePut(calls, at, Leaf(ConstArg(TreeAt(calls, at).arg.typ, val))))
    {
      hide Inv, RepCalls, ResultsCalls, TreePut, HasPath, RefIn, RetsEmpty;
      ghost var t, s := TreeAt(calls, at), Own();
      ghost var t1 := Leaf(ConstArg(t.arg.typ, val));
      ghost var put := TreePut(calls, at, t1);
      assert allocated(Order());
      PlaceRep(Shape(own), nodes, calls, at);
      var q := LocateIn(nodes, at, calls, Shape(own));
      assert q.n.v == Shape(own)[q.n];
      var n1 := new Node(NConst(q.n.v.typ, val));
      ConstReady(this, at, t, t1, Snap(s));
      assert Shape({n1}) == map[n1 := NConst(t.arg.typ, val)];
      ConstGenerated(n1, t.arg.typ, val);
      RegenerateArg(at, Plain(n1), [], t1, [], {n1}, s);
      assert put[..at.ci] + [] + put[at.ci..] == put;
      LeafPut(old(calls), at, t1);
    }

    /** Removes everything that refers to or from the results of an argument, which stays where it is until
        it is replaced. */
    method RemoveArg(at: Place)
      requires Valid() && HasPlace(calls, at)
      modifies Own()
      ensures Shaped() && Links() == Remove(old(Links()), Nodes(Results(TreeAt(calls, at))))
      ensures Holed(calls, at, {}, Links()) && Detached(Results(TreeAt(calls, at)), Links())
    {
      hide Inv, RetsEmpty, RepCalls, ResultsCalls, Results, Before, After, Remove, Detached, RefIn, Foot, Rep;
      ghost var h, t, g, pre, post := Shape(own), TreeAt(calls, at), Links(), Before(calls, at), After(calls, at);
      assert allocated(Order());
      PlaceRep(h, nodes, calls, at);
      var q := LocateIn(nodes, at, calls, h);
      var mid := CollectResults(q, t, h);
      TreePutOrder(calls, at, t);
      TreePutSame(calls, at);
      assert Links() == g && Order() == pre + mid + post;
      RemoveResults(mid, pre, post, Own());
      assert Shape(own) == h;
      RemoveDetaches(g, mid);
      RemoveKeepsInv(pre, mid, post, {}, g);
      RetsAfterRemove(calls, g, Nodes(mid));
    }

    /** Puts a newly generated argument where one has been removed, and inserts the calls generated with it. */
    method RefillArg(at: Place, ref1: Ref, new_: seq<NCall>, ghost t1: Tree, ghost newCalls: seq<HCall>,
                     ghost newOwn: set<Node>, ghost s: set<ResultArg>)
      requires HasPlace(calls, at) && Own() <= s && (forall r :: r in s && r.v.res != null ==> r.v.res in s)
      requires Shaped() && own !! newOwn && Generated(Shape(newOwn), ref1, t1, new_, newCalls)
      requires (TreeAt(calls, at).Union? || TreeAt(calls, at).Pointer?) && Matching(TreeAt(calls, at), t1)
      requires Nodes(Results(t1)) <= s && Refillable(calls, at, t1, newCalls, Snap(s))
      modifies this, s, own, newOwn
      ensures Valid() && own == old(own) + newOwn && Snap(s) == old(Snap(s))
      ensures calls == old(var put := TreePut(calls, at, t1); put[..at.ci] + newCalls + put[at.ci..])
    {
      hide Results, ResultsCalls, Inv, RetsEmpty, TreePut, Refillable, RepCalls, Generated, Prog.Shaped;
      ghost var t, g := TreeAt(calls, at), Snap(s);
      assert Nodes(Results(t)) <= s by {
        TreePutOrder(calls, at, t);
        TreePutSame(calls, at);
        AroundNodes(Before(calls, at), Results(t), After(calls, at));
      }
      assert Relinked(g, t, t1) == g && Replaced(t, t1) == t1;
      hide Relinked, Replaced, Matching, TreeAt;
      RefillInv(calls, at, t1, newCalls, g);
      ReplaceAndInsert(at, ref1, new_, t1, newCalls, newOwn, s);
      RestrictLinked(this, calls, s, g);
    }

    /** Replaces a pointer by one that points to nothing; what it pointed to is removed first. */
    method MakeSpecial(at: Place, address: u64)
      requires Valid() && HasPlace(calls, at) && TreeAt(calls, at).Pointer?
      modifies this, Own(), own
      ensures Valid() && own == old(own) && Own() <= old(Own())
      ensures calls == old(TreePut(calls, at, Pointer(TreeAt(calls, at).typ, address, 0, None)))
      ensures Snap(old(Own())) == Remove(old(Links()), Nodes(Results(old(TreeAt(calls, at)))))
    {
      hide Inv, RetsEmpty, RepCalls, ResultsCalls, Results, TreePut, HasPath, RefIn, Before, After, Remove, Detached;
      ghost var t, was := TreeAt(calls, at), Own();
      ghost var t2 := Pointer(t.typ, address, 0, None);
      NoResults(t2);
      RemoveArg(at);
      ghost var h, g, before := Shape(own), Links(), calls;
      assert allocated(Order());
      PlaceRep(h, nodes, calls, at);
      var q := LocateIn(nodes, at, calls, h);
      assert q.n.v == h[q.n];
      SpecialPut(h, nodes, calls, at, address);
      q.n.v := NPointer(q.n.v.typ, address, 0, None);
      calls := TreePut(calls, at, t2);
      assert Shape(own) == h[q.n := NPointer(h[q.n].typ, address, 0, None)];
      assert Snap(was) == g;
      SpecialOrder(before, at, t2, g);
      RestrictLinked(this, calls, was, g);
    }

    /** Overwrites the bytes of a data argument where they are. */
    method WriteData(at: Place, data: seq<char>)
      requires Valid() && HasPlace(calls, at) && TreeAt(calls, at).Leaf? && TreeAt(calls, at).arg.DataArg?
      modifies this, own
      ensures Valid() && own == old(own) && Own() == old(Own()) && Links() == old(Links())
      ensures calls == old(TreePut(calls, at, Leaf(TreeAt(calls, at).arg.(data := data))))
    {
      hide Inv, RetsEmpty, RepCalls, ResultsCalls, TreePut, HasPath, RefIn;
      ghost var h, t := Shape(own), TreeAt(calls, at);
      assert allocated(Order());
      ghost var t2 := Leaf(t.arg.(data := data));
      PlaceRep(h, nodes, calls, at);
      var q := LocateIn(nodes, at, calls, h);
      assert q.n.v == h[q.n];
      var buf := q.n.v.buf;
      DataPut(h, nodes, calls, at, data);
      LeafPut(calls, at, t2);
      buf.v := NBytes(data);
      calls := TreePut(calls, at, t2);
      assert Shape(own) == h[buf := NBytes(data)];
      assert Own() == old(Own()) && forall r :: r in Own() ==> r.v == old(r.v) && r.uses == old(r.uses);
      assert Links() == old(Links());
    }

    /** Moves a pointer, with what it points to, to another address. */
    method SetAddress(at: Place, address: u64)
      requires Valid() && HasPlace(calls, at) && TreeAt(calls, at).Pointer?
      modifies this, own
      ensures Valid() && own == old(own) && Own() == old(Own()) && Links() == old(Links())
      ensures calls == old(TreePut(calls, at, TreeAt(calls, at).(address := address)))
    {
      hide Inv, RetsEmpty, RepCalls, ResultsCalls, TreePut, HasPath, RefIn;
      ghost var h, t := Shape(own), TreeAt(calls, at);
      assert allocated(Order());
      ghost var t2 := t.(address := address);
      PlaceRep(h, nodes, calls, at);
      var q := LocateIn(nodes, at, calls, h);
      assert q.n.v == h[q.n];
      AddressPut(h, nodes, calls, at, address);
      LeafPut(calls, at, t2);
      q.n.v := q.n.v.(address := address);
      calls := TreePut(calls, at, t2);
      assert Shape(own) == h[q.n := h[q.n].(address := address)];
      assert Own() == old(Own()) && forall r :: r in Own() ==> r.v == old(r.v) && r.uses == old(r.uses);
      assert Links() == old(Links());
    }

    /** Removes calls from the end until at most ncalls remain; no argument that stays is changed. */
    method Truncate(ncalls: nat)
      requires Valid()
      modifies this, Own()
      ensures Valid() && Own() <= old(Own()) && own == old(own)
      ensures calls == if |old(calls)| <= ncalls then old(calls) else old(calls)[..ncalls]
      ensures forall r :: r in Own() ==> r.v == old(Links())[r].v
    {
      hide Inv, RetsEmpty, Remove, ResultsCalls, RepCalls;
      ghost var g := Links();
      while |nodes| > ncalls
        invariant Valid() && Own() <= g.Keys && own == old(own) && |calls| <= |old(calls)|
          && calls == old(calls)[..|calls|]
        invariant |calls| < |old(calls)| ==> |calls| >= ncalls
        invariant forall r :: r in Own() ==> r.v == g[r].v
        invariant |nodes| == |calls|
        decreases |nodes|
      {
        TruncateStep(calls, Links());
        RemoveCall(|nodes| - 1);
        assert forall r :: r in Own() ==> r.v == Snap(Own())[r].v;
      }
    }

    /** Inserts the calls of a separate program before call idx. */
    method Join(q: Prog, idx: nat)
      requires Valid() && q.Valid() && Own() !! q.Own() && own !! q.own && idx < |calls|
      modifies this
      ensures Valid() && Own() == old(Own()) + q.Own() && own == old(own) + q.own
      ensures calls == old(calls[..idx]) + old(q.calls) + old(calls[idx..])
    {
      hide ResultsCalls, Ready, Prog.Linked, RepCalls;
      SpliceReady(this, q, idx, Snap(Own() + q.Own()));
      InsertBefore(idx, q.nodes, q.calls, q.own, Own() + q.Own());
    }

    /** Inserts a clone of p0 before call idx. */
    method InsertClone(p0: Prog, idx: nat) returns (ghost m: Copies)
      requires Valid() && p0.Valid() && idx < |calls|
      modifies this
      ensures Valid() && m.Keys == old(p0.Own()) && fresh(m.Values) && m.Values !! old(Own())
      ensures calls == old(calls[..idx]) + RenamedCalls(old(p0.calls), m) + old(calls[idx..])
      ensures Own() == old(Own()) + m.Values && old(own) <= own && fresh(own - old(own))
      ensures var g := old(Links()); forall r :: r in g ==> r.v == g[r].v
      ensures var g := old(p0.Links()); forall r :: r in m ==> m[r].v == Redirected(g[r].v, m)
    {
      hide ResultsCalls, CopyOf, RenamedCalls, Mapped, Redirected, Inv, RetsEmpty, RepCalls;
      assert allocated(Order()) && allocated(p0.Order());
      ghost var g := Links();
      var p0c;
      p0c, m := p0.Clone();
      assert Links() == g;
      Join(p0c, idx);
    }

    /** Inserts a clone of p0 before call idx and truncates the program to ncalls calls. */
    method Splice(p0: Prog, idx: nat, ncalls: nat) returns (ghost m: Copies)
      requires Valid() && p0.Valid() && idx < |calls|
      modifies this, Own()
      ensures Valid() && m.Keys == old(p0.Own()) && m.Values !! old(Own())
      ensures old(own) <= own && fresh(own - old(own))
      ensures var whole := old(calls[..idx]) + RenamedCalls(old(p0.calls), m) + old(calls[idx..]);
              calls == if |whole| <= ncalls then whole else whole[..ncalls]
      ensures var g := old(Links()); forall r :: r in g && r in Own() ==> r.v == g[r].v
      ensures var g := old(p0.Links()); forall r :: r in m && m[r] in Own() ==> m[r].v == Redirected(g[r].v, m)
    {
      hide Inv, RetsEmpty, ResultsCalls, RenamedCalls, Redirected, Nodes, RepCalls;
      m := InsertClone(p0, idx);
      Truncate(ncalls);
    }
  }

  /** A constant can take the place of another. */
  lemma ConstReady(p: Prog, at: Place, t: Tree, t1: Tree, g: Graph)
    requires p.Linked() && g == p.Links() && HasPlace(p.calls, at) && t == TreeAt(p.calls, at)
    requires t.Leaf? && t1.Leaf? && t.arg.ConstArg? && t1.arg.ConstArg?
    ensures Results(t1) == [] && Matching(t, t1) && Nodes(ResultsCalls([])) == Nodes(Results(t1)) == {}
    ensures Ready(p, at.ci, [], Nodes(ResultsCalls([])) + Nodes(Results(t1)), g)
    ensures forall avail :: Fits(t, t1, avail, g)
    ensures forall r :: r in p.Own() && g[r].v.res != null ==> g[r].v.res in p.Own()
  {
    var order := p.Order();
    forall r | r in p.Own() && g[r].v.res != null
      ensures g[r].v.res in p.Own()
    {
      var i :| 0 <= i < |order| && order[i] == r;
    }
  }

  lemma ConstGenerated(n: Node, typ: Type, val: u64)
    ensures Generated(map[n := NConst(typ, val)], Plain(n), Leaf(ConstArg(typ, val)), [], [])
  {
  }

  /** The links that remain after a call is removed. */
  lemma RemovedLinks(p: Prog, before: seq<HCall>, idx: nat, g: Graph)
    requires idx < |before| && p.calls == before[..idx] + before[idx + 1..] && g.Keys == Nodes(ResultsCalls(before))
    requires Inv(ResultsCalls(before), {}, g) && RetsEmpty(before, g)
    requires Snap(g.Keys) == Remove(g, Nodes(ResultsCall(before[idx])))
    ensures p.Linked() && p.Own() <= g.Keys
  {
    hide ResultsCalls, ResultsCall, Inv, RetsEmpty;
    var pre, mid, post := ResultsCalls(before[..idx]), ResultsCall(before[idx]), ResultsCalls(before[idx + 1..]);
    CallAt(before, idx);
    OrderSplit(before[..idx], before[idx + 1..]);
    RemoveKeepsInv(pre, mid, post, {}, g);
    AroundNodes(pre, mid, post);
    assert Nodes(pre + post) == Nodes(pre) + Nodes(post);
    var g' := Remove(g, Nodes(mid));
    assert forall r :: r in p.Links() ==> p.Links()[r] == Snap(g.Keys)[r];
    RestrictInv(pre + post, g', p.Links());
    RetsKept(before, p.calls, g, p.Links(), Nodes(mid));
  }

  /** The clone of another program can be inserted anywhere. */
  lemma SpliceReady(p: Prog, p0: Prog, idx: nat, g: Graph)
    requires p.Linked() && p0.Linked() && p.Own() !! p0.Own() && idx <= |p.calls| && g == Snap(p.Own() + p0.Own())
    ensures Ready(p, idx, p0.calls, Nodes(ResultsCalls(p0.calls)), g)
  {
    WidenInv(p.Order(), p0.Own(), p.Links(), g);
    WidenArriving(p0.Order(), Nodes(ResultsCalls(p.calls[..idx])), p0.Links(), g);
  }

  lemma WidenInv(order: seq<ResultArg>, pending: set<ResultArg>, g1: Graph, g: Graph)
    requires Inv(order, {}, g1) && g1.Keys <= g.Keys && forall r :: r in g1 ==> g1[r] == g[r]
    ensures Inv(order, pending, g)
  {
    forall r | r in order
      ensures r in g1
    {
      assert r in Nodes(order);
    }
  }

  lemma WidenArriving(order: seq<ResultArg>, avail: set<ResultArg>, g1: Graph, g: Graph)
    requires Inv(order, {}, g1) && g1.Keys <= g.Keys && forall r :: r in g1 ==> g1[r] == g[r]
    ensures Arriving(avail, order, Nodes(order), g)
  {
    forall r | r in order
      ensures r in g1
    {
      assert r in Nodes(order);
    }
  }

  /** Removing the last call keeps the values of all arguments before it. */
  lemma TruncateStep(calls: seq<HCall>, g: Graph)
    requires calls != [] && Inv(ResultsCalls(calls), {}, g)
    ensures var n := |calls| - 1;
      calls[..n] + calls[n + 1..] == calls[..n] &&
      forall r :: r in Nodes(ResultsCalls(calls[..n])) ==>
        r in g && Remove(g, Nodes(ResultsCall(calls[n])))[r].v == g[r].v
  {
    hide Inv, ResultsCall, Remove;
    var n := |calls| - 1;
    CallAt(calls, n);
    assert calls[n + 1..] == [];
    hide ResultsCalls;
    assert ResultsCalls(calls) == ResultsCalls(calls[..n]) + ResultsCall(calls[n]);
    RemoveTail(ResultsCalls(calls[..n]), ResultsCall(calls[n]), g);
  }

  lemma CopyValues(m: Copies, g: Graph, c: Graph)
    requires CopyOf(m, g, c)
    ensures forall r :: r in m ==> r in g && m[r] in c && c[m[r]].v == Redirected(g[r].v, m)
  {
  }

  lemma MappedNodes(order: seq<ResultArg>, m: Copies)
    requires m.Keys == Nodes(order)
    ensures Nodes(Mapped(order, m)) == m.Values
  {
    var copy := Mapped(order, m);
    forall i | 0 <= i < |order|
      ensures order[i] in m && copy[i] == m[order[i]]
    {
      assert order[i] in Nodes(order);
    }
    forall q | q in m.Values
      ensures q in copy
    {
      var r :| r in m && m[r] == q;
      var i :| 0 <= i < |order| && order[i] == r;
      assert copy[i] == q;
    }
  }

  lemma {:induction false} RenamedRets(calls: seq<HCall>, g: Graph, m: Copies, c: Graph)
    requires RetsEmpty(calls, g) && CopyOf(m, g, c) && m.Keys == g.Keys
    ensures RetsEmpty(RenamedCalls(calls, m), c)
  {
    if calls != [] {
      RenamedRets(calls[1..], g, m, c);
    }
  }

  /** Generated calls that can be inserted at position idx of a program; `pending` are all the new
      results, and the program's own results may already record them as users. */
  ghost predicate Ready(p: Prog, idx: nat, new_: seq<HCall>, pending: set<ResultArg>, g: Graph)
    requires idx <= |p.calls|
    reads p
  {
    && Inv(p.Order(), pending, g) && RetsEmpty(p.calls, g) && RetsEmpty(new_, g)
    && Arriving(Nodes(ResultsCalls(p.calls[..idx])), ResultsCalls(new_), pending, g)
    && Nodes(ResultsCalls(new_)) <= pending && pending !! p.Own()
  }

  lemma ReadyInserts(p: Prog, idx: nat, new_: seq<HCall>, pending: set<ResultArg>, g: Graph)
    requires idx <= |p.calls| && Ready(p, idx, new_, pending, g)
    ensures var calls := p.calls[..idx] + new_ + p.calls[idx..];
      && ResultsCalls(calls) == ResultsCalls(p.calls[..idx]) + ResultsCalls(new_) + ResultsCalls(p.calls[idx..])
      && Inv(ResultsCalls(calls), pending - Nodes(ResultsCalls(new_)), g) && RetsEmpty(calls, g)
  {
    var pre, mid, post := ResultsCalls(p.calls[..idx]), ResultsCalls(new_), ResultsCalls(p.calls[idx..]);
    OrderSplit(p.calls[..idx], p.calls[idx..]);
    assert p.calls[..idx] + p.calls[idx..] == p.calls;
    InsertKeepsInv(pre, mid, post, pending, g);
    OrderSplit(p.calls[..idx], new_);
    OrderSplit(p.calls[..idx] + new_, p.calls[idx..]);
  }

  lemma InsertedNodes(calls: seq<HCall>, idx: nat, new_: seq<HCall>)
    requires idx <= |calls|
    ensures Nodes(ResultsCalls(calls[..idx] + new_ + calls[idx..])) ==
      Nodes(ResultsCalls(calls)) + Nodes(ResultsCalls(new_))
  {
    hide ResultsCalls;
    assert calls[..idx] + calls[idx..] == calls;
    OrderSplit(calls[..idx], calls[idx..]);
    OrderSplit(calls[..idx], new_);
    OrderSplit(calls[..idx] + new_, calls[idx..]);
  }

  lemma Assoc(a: seq<ResultArg>, b: seq<ResultArg>, c: seq<ResultArg>)
    ensures a + (b + c) == a + b + c
  {
  }

  lemma {:induction false} OrderSplit(a: seq<HCall>, b: seq<HCall>)
    ensures ResultsCalls(a + b) == ResultsCalls(a) + ResultsCalls(b)
  {
    hide ResultsCall;
    if a == [] {
      assert a + b == b && ResultsCalls(a) == [];
    } else {
      OrderSplit(a[1..], b);
      assert (a + b)[0] == a[0] && (a + b)[1..] == a[1..] + b;
      Assoc(ResultsCall(a[0]), ResultsCalls(a[1..]), ResultsCalls(b));
    }
  }

  lemma CallAt(calls: seq<HCall>, idx: nat)
    requires idx < |calls|
    ensures ResultsCalls(calls) == ResultsCalls(calls[..idx]) + ResultsCall(calls[idx]) + ResultsCalls(calls[idx + 1..])
  {
    hide ResultsCalls, ResultsCall;
    assert calls == calls[..idx] + calls[idx..];
    OrderSplit(calls[..idx], calls[idx..]);
    HeadCalls(calls, idx);
  }

  /** The invariant speaks only about the program's own results. */
  lemma RestrictInv(order: seq<ResultArg>, g: Graph, g1: Graph)
    requires Inv(order, {}, g) && g1.Keys == Nodes(order) && forall r :: r in g1 ==> r in g && g1[r] == g[r]
    ensures Inv(order, {}, g1)
  {
    forall r | r in order
      ensures r in g1
    {
      assert r in Nodes(order);
    }
  }

  lemma RetsKept(before: seq<HCall>, after: seq<HCall>, g: Graph, g1: Graph, d: set<ResultArg>)
    requires RetsEmpty(before, g) && forall c :: c in after ==> c in before
    requires g1.Keys == Nodes(ResultsCalls(after)) && forall r :: r in g1 ==> r in g && g1[r] == Remove(g, d)[r]
    ensures RetsEmpty(after, g1)
  {
    forall c | c in after && c.ret != null
      ensures c.ret in g1
    {
      RetOwned(after, c);
    }
  }

  lemma RetsRestricted(calls: seq<HCall>, g: Graph, g1: Graph)
    requires RetsEmpty(calls, g)
    requires g1.Keys == Nodes(ResultsCalls(calls)) && forall r :: r in g1 ==> r in g && g1[r] == g[r]
    ensures RetsEmpty(calls, g1)
  {
    forall c | c in calls && c.ret != null
      ensures c.ret in g1
    {
      RetOwned(calls, c);
    }
  }

  lemma RestrictLinked(p: Prog, calls: seq<HCall>, s: set<ResultArg>, g: Graph)
    requires p.calls == calls && g == Snap(s) && Inv(ResultsCalls(calls), {}, g) && RetsEmpty(calls, g)
    ensures p.Own() <= s && p.Linked()
  {
    RestrictInv(p.Order(), Snap(s), p.Links());
    RetsRestricted(p.calls, Snap(s), p.Links());
  }

  lemma RetOwned(calls: seq<HCall>, c: HCall)
    requires c in calls && c.ret != null
    ensures c.ret in Nodes(ResultsCalls(calls))
  {
    var i :| 0 <= i < |calls| && calls[i] == c;
    CallAt(calls, i);
    assert ResultsCall(c)[|ResultsCall(c)| - 1] == c.ret;
  }

  // ---- regenerating an argument ----

  /** The results before and after a position. */
  ghost function Around(t: Tree, path: seq<nat>): (seq<ResultArg>, seq<ResultArg>)
    requires HasPath(t, path)
    decreases |path|
  {
    if path == [] then ([], []) else
    match t
    case Pointer(_, _, _, pointee) => Around(pointee.value, path[1..])
    case Union(_, option) => Around(option, path[1..])
    case Group(_, inner) =>
      var (a, b) := Around(inner[path[0]], path[1..]);
      (ResultsSeq(inner[..path[0]]) + a, b + ResultsSeq(inner[path[0] + 1..]))
  }

  lemma {:induction false} TreesSplit(a: seq<Tree>, b: seq<Tree>)
    ensures ResultsSeq(a + b) == ResultsSeq(a) + ResultsSeq(b)
  {
    hide Results;
    if a == [] {
      assert a + b == b && ResultsSeq(a) == [];
    } else {
      TreesSplit(a[1..], b);
      assert (a + b)[0] == a[0] && (a + b)[1..] == a[1..] + b;
      Assoc(Results(a[0]), ResultsSeq(a[1..]), ResultsSeq(b));
    }
  }

  lemma TreesAt(ts: seq<Tree>, i: nat, t: Tree)
    requires i < |ts|
    ensures ResultsSeq(ts[i := t]) == ResultsSeq(ts[..i]) + Results(t) + ResultsSeq(ts[i + 1..])
  {
    hide Results;
    assert ts[i := t] == ts[..i] + ([t] + ts[i + 1..]);
    TreesSplit(ts[..i], [t] + ts[i + 1..]);
    assert ([t] + ts[i + 1..])[1..] == ts[i + 1..];
  }

  lemma {:induction false} PutResults(t: Tree, path: seq<nat>, new_: Tree)
    requires HasPath(t, path)
    ensures Results(Put(t, path, new_)) == Around(t, path).0 + Results(new_) + Around(t, path).1
    decreases |path|
  {
    if path != [] {
      match t
      case Pointer(_, _, _, pointee) => PutResults(pointee.value, path[1..], new_);
      case Union(_, option) => PutResults(option, path[1..], new_);
      case Group(_, inner) =>
        var i := path[0];
        PutResults(inner[i], path[1..], new_);
        TreesAt(inner, i, Put(inner[i], path[1..], new_));
    }
  }

  lemma {:induction false} PutSame(t: Tree, path: seq<nat>)
    requires HasPath(t, path)
    ensures Put(t, path, At(t, path)) == t
    decreases |path|
  {
    if path != [] {
      match t
      case Pointer(_, _, _, pointee) => PutSame(pointee.value, path[1..]);
      case Union(_, option) => PutSame(option, path[1..]);
      case Group(_, inner) => PutSame(inner[path[0]], path[1..]);
    }
  }

  function Ret(c: HCall): seq<ResultArg> { if c.ret != null then [c.ret] else [] }

  ghost function Before(calls: seq<HCall>, at: Place): seq<ResultArg>
    requires HasPlace(calls, at)
  {
    var c := calls[at.ci];
    ResultsCalls(calls[..at.ci]) + (ResultsSeq(c.args[..at.ai]) + Around(c.args[at.ai], at.path).0)
  }

  ghost function After(calls: seq<HCall>, at: Place): seq<ResultArg>
    requires HasPlace(calls, at)
  {
    var c := calls[at.ci];
    Around(c.args[at.ai], at.path).1 + ResultsSeq(c.args[at.ai + 1..]) + Ret(c) + ResultsCalls(calls[at.ci + 1..])
  }

  lemma TreePutOrder(calls: seq<HCall>, at: Place, new_: Tree)
    requires HasPlace(calls, at)
    ensures ResultsCalls(TreePut(calls, at, new_)) == Before(calls, at) + Results(new_) + After(calls, at)
  {
    hide Results, ResultsCalls, ResultsSeq;
    var c, after := calls[at.ci], TreePut(calls, at, new_);
    CallAt(after, at.ci);
    assert after[..at.ci] == calls[..at.ci] && after[at.ci + 1..] == calls[at.ci + 1..];
    TreesAt(c.args, at.ai, Put(c.args[at.ai], at.path, new_));
    PutResults(c.args[at.ai], at.path, new_);
    assert ResultsCall(after[at.ci]) == ResultsSeq(after[at.ci].args) + Ret(c);
    Regroup(ResultsCalls(calls[..at.ci]), ResultsSeq(c.args[..at.ai]), Around(c.args[at.ai], at.path).0, Results(new_),
            Around(c.args[at.ai], at.path).1, ResultsSeq(c.args[at.ai + 1..]), Ret(c),
              ResultsCalls(calls[at.ci + 1..]));
  }

  lemma Regroup(a: seq<ResultArg>, b: seq<ResultArg>, c: seq<ResultArg>, d: seq<ResultArg>, e: seq<ResultArg>,
                f: seq<ResultArg>, g: seq<ResultArg>, h: seq<ResultArg>)
    ensures a + (b + (c + d + e) + f + g) + h == (a + (b + c)) + d + (e + f + g + h)
  {
  }

  lemma TreePutSame(calls: seq<HCall>, at: Place)
    requires HasPlace(calls, at)
    ensures TreePut(calls, at, TreeAt(calls, at)) == calls
  {
    var c := calls[at.ci];
    PutSame(c.args[at.ai], at.path);
    assert c.args[at.ai := c.args[at.ai]] == c.args;
  }

  /** The program without the argument at a place satisfies the invariant. */
  ghost predicate Holed(calls: seq<HCall>, at: Place, pending: set<ResultArg>, g: Graph)
    requires HasPlace(calls, at)
  {
    Inv(Before(calls, at) + After(calls, at), pending, g) && RetsEmpty(calls, g)
  }

  lemma RetsAfterRemove(calls: seq<HCall>, g: Graph, d: set<ResultArg>)
    requires RetsEmpty(calls, g)
    ensures RetsEmpty(calls, Remove(g, d))
  {
  }

  lemma NoResults(t: Tree)
    requires t.Pointer? && t.pointee.None?
    ensures Results(t) == []
  {
  }

  lemma SpecialOrder(calls: seq<HCall>, at: Place, t2: Tree, g: Graph)
    requires HasPlace(calls, at) && Results(t2) == [] && Holed(calls, at, {}, g)
    ensures var after := TreePut(calls, at, t2); Inv(ResultsCalls(after), {}, g) && RetsEmpty(after, g)
  {
    hide Inv, Results, ResultsCalls, Before, After;
    TreePutOrder(calls, at, t2);
    assert Before(calls, at) + [] == Before(calls, at);
    var after := TreePut(calls, at, t2);
    assert forall i :: 0 <= i < |calls| ==> after[i].ret == calls[i].ret && calls[i] in calls;
  }

  /** A generated argument and its calls fit where an argument has been removed. */
  ghost predicate Refillable(calls: seq<HCall>, at: Place, t1: Tree, newCalls: seq<HCall>, g: Graph)
    requires HasPlace(calls, at)
  {
    var avail, mid, results := Nodes(ResultsCalls(calls[..at.ci])), ResultsCalls(newCalls), Results(t1);
    && Holed(calls, at, Nodes(mid) + Nodes(results), g) && RetsEmpty(newCalls, g)
    && Nodes(mid) !! Nodes(results)
    && Nodes(mid) + Nodes(results) !! Nodes(Before(calls, at) + After(calls, at))
    && Arriving(avail, mid, Nodes(mid) + Nodes(results), g) && Arriving(avail + Nodes(mid), results, Nodes(results), g)
  }

  lemma RefillInv(calls: seq<HCall>, at: Place, t1: Tree, newCalls: seq<HCall>, g: Graph)
    requires HasPlace(calls, at) && Refillable(calls, at, t1, newCalls, g)
    ensures var put := TreePut(calls, at, t1); var after := put[..at.ci] + newCalls + put[at.ci..];
      Inv(ResultsCalls(after), {}, g) && RetsEmpty(after, g)
  {
    hide Inv, Arriving, Results, ResultsCalls, ResultsSeq, Around, After;
    var c, mid, results, post := calls[at.ci], ResultsCalls(newCalls), Results(t1), After(calls, at);
    var a, x := ResultsCalls(calls[..at.ci]), ResultsSeq(c.args[..at.ai]) + Around(c.args[at.ai], at.path).0;
    assert Before(calls, at) == a + x;
    InsertTwice(a, mid, x, results, post, g);
    RefillOrder(calls, at, t1, newCalls);
    RefillRets(calls, at, t1, newCalls, g);
  }

  /** Two groups of new results enter a program at two places. */
  lemma InsertTwice(a: seq<ResultArg>, mid: seq<ResultArg>, x: seq<ResultArg>, results: seq<ResultArg>,
                    post: seq<ResultArg>, g: Graph)
    requires var pending := Nodes(mid) + Nodes(results);
      && Inv(a + x + post, pending, g) && pending !! Nodes(a + x + post) && Nodes(mid) !! Nodes(results)
      && Arriving(Nodes(a), mid, pending, g) && Arriving(Nodes(a) + Nodes(mid), results, Nodes(results), g)
    ensures Inv(a + mid + (x + results + post), {}, g)
  {
    hide Inv, Arriving;
    assert a + x + post == a + (x + post);
    InsertKeepsInv(a, mid, x + post, Nodes(mid) + Nodes(results), g);
    assert Nodes(mid) + Nodes(results) - Nodes(mid) == Nodes(results);
    assert a + mid + (x + post) == (a + mid + x) + post;
    InsertedHere(a, mid, x, post);
    ArrivingMore(Nodes(a) + Nodes(mid), Nodes(a + mid + x), results, Nodes(results), Nodes(results), g);
    InsertKeepsInv(a + mid + x, results, post, Nodes(results), g);
    assert Nodes(results) - Nodes(results) == {};
    assert a + mid + x + results + post == a + mid + (x + results + post);
  }

  lemma InsertedHere(a: seq<ResultArg>, mid: seq<ResultArg>, x: seq<ResultArg>, post: seq<ResultArg>)
    ensures Nodes(a + mid + x) == Nodes(a) + Nodes(mid) + Nodes(x)
    ensures Nodes(a + mid + x + post) == Nodes(a + x + post) + Nodes(mid)
  {
  }

  lemma RefillOrder(calls: seq<HCall>, at: Place, t1: Tree, newCalls: seq<HCall>)
    requires HasPlace(calls, at)
    ensures var c := calls[at.ci]; var x := ResultsSeq(c.args[..at.ai]) + Around(c.args[at.ai], at.path).0;
      var put := TreePut(calls, at, t1);
      ResultsCalls(put[..at.ci] + newCalls + put[at.ci..]) ==
      ResultsCalls(calls[..at.ci]) + ResultsCalls(newCalls) + (x + Results(t1) + After(calls, at))
  {
    hide Results, ResultsCalls, ResultsSeq, After, Around;
    var c, put, a := calls[at.ci], TreePut(calls, at, t1), ResultsCalls(calls[..at.ci]);
    var x := ResultsSeq(c.args[..at.ai]) + Around(c.args[at.ai], at.path).0;
    TreePutOrder(calls, at, t1);
    assert put[..at.ci] == calls[..at.ci] && put == put[..at.ci] + put[at.ci..];
    OrderSplit(put[..at.ci], put[at.ci..]);
    OrderSplit(put[..at.ci], newCalls);
    OrderSplit(put[..at.ci] + newCalls, put[at.ci..]);
    Remainder(a, ResultsCalls(put[at.ci..]), x, Results(t1), After(calls, at));
  }

  lemma Remainder(a: seq<ResultArg>, b: seq<ResultArg>, x: seq<ResultArg>, y: seq<ResultArg>, z: seq<ResultArg>)
    requires a + b == (a + x) + y + z
    ensures b == x + y + z
  {
    assert (a + x) + y + z == a + (x + y + z);
    assert (a + b)[|a|..] == b && (a + (x + y + z))[|a|..] == x + y + z;
  }

  lemma RefillRets(calls: seq<HCall>, at: Place, t1: Tree, newCalls: seq<HCall>, g: Graph)
    requires HasPlace(calls, at) && RetsEmpty(calls, g) && RetsEmpty(newCalls, g)
    ensures var put := TreePut(calls, at, t1); RetsEmpty(put[..at.ci] + newCalls + put[at.ci..], g)
  {
    var put := TreePut(calls, at, t1);
    assert forall i :: 0 <= i < |calls| ==> put[i].ret == calls[i].ret && calls[i] in calls;
  }

  /** A change that concerns no result. */
  lemma LeafPut(calls: seq<HCall>, at: Place, t2: Tree)
    requires HasPlace(calls, at) && Results(t2) == Results(TreeAt(calls, at))
    ensures ResultsCalls(TreePut(calls, at, t2)) == ResultsCalls(calls)
    ensures forall g :: RetsEmpty(calls, g) ==> RetsEmpty(TreePut(calls, at, t2), g)
  {
    hide Results, ResultsCalls;
    TreePutOrder(calls, at, t2);
    TreePutOrder(calls, at, TreeAt(calls, at));
    TreePutSame(calls, at);
    var out := TreePut(calls, at, t2);
    assert forall i :: 0 <= i < |calls| ==> out[i].ret == calls[i].ret && calls[i] in calls;
  }

  /** Return values are never part of an argument. */
  lemma RetsAround(calls: seq<HCall>, at: Place, c: HCall)
    requires HasPlace(calls, at) && c in calls && c.ret != null
    ensures c.ret in Nodes(Before(calls, at)) + Nodes(After(calls, at))
  {
    var j :| 0 <= j < |calls| && calls[j] == c;
    if j < at.ci {
      assert calls[..at.ci][j] == c;
      RetOwned(calls[..at.ci], c);
    } else if j > at.ci {
      assert calls[at.ci + 1..][j - at.ci - 1] == c;
      RetOwned(calls[at.ci + 1..], c);
    } else {
      assert c.ret in Ret(c);
    }
  }

  /** Replacing an argument keeps the program valid. */
  lemma TreePutKeepsInv(calls: seq<HCall>, at: Place, t1: Tree, avail: set<ResultArg>, g: Graph)
    requires HasPlace(calls, at) && Matching(TreeAt(calls, at), t1) && Fits(TreeAt(calls, at), t1, avail, g)
    requires Inv(ResultsCalls(calls), Nodes(Results(t1)), g) && RetsEmpty(calls, g)
    requires avail <= Nodes(ResultsCalls(calls[..at.ci])) && Distinct(Results(t1))
    requires Nodes(Results(t1)) <= g.Keys && Nodes(Results(t1)) !! Nodes(ResultsCalls(calls))
    ensures Nodes(Results(TreeAt(calls, at))) <= g.Keys
    ensures var t := TreeAt(calls, at); var after := TreePut(calls, at, Replaced(t, t1));
      Inv(ResultsCalls(after), {}, Relinked(g, t, t1)) && RetsEmpty(after, Relinked(g, t, t1))
  {
    hide Results, ResultsCalls, ResultsSeq, Inv, Fits, Matching, Replaced, Relinked, Distinct, Local;
    var t, pre, post := TreeAt(calls, at), Before(calls, at), After(calls, at);
    TreePutOrder(calls, at, t);
    TreePutSame(calls, at);
    AroundNodes(pre, Results(t), post);
    InvDistinct(pre, Results(t), post, Nodes(Results(t1)), g);
    ReplacedKeepsInv(pre, t, t1, post, Nodes(Results(t1)), avail, g);
    TreePutOrder(calls, at, Replaced(t, t1));
    assert Nodes(Results(t1)) - Nodes(Results(t1)) == {};
    RelinkedLocal(g, t, t1, avail);
    TreePutRets(calls, at, t1, avail, g);
  }

  lemma TreePutRets(calls: seq<HCall>, at: Place, t1: Tree, avail: set<ResultArg>, g: Graph)
    requires HasPlace(calls, at) && Matching(TreeAt(calls, at), t1) && RetsEmpty(calls, g)
    requires var t := TreeAt(calls, at); Nodes(Results(t)) <= g.Keys && Nodes(Results(t1)) <= g.Keys
    requires var t := TreeAt(calls, at); Local(g, Relinked(g, t, t1), Nodes(Results(t)) + Nodes(Results(t1)), avail)
    requires var t := TreeAt(calls, at);
      Nodes(Before(calls, at)) + Nodes(After(calls, at)) !! Nodes(Results(t)) + Nodes(Results(t1))
    ensures var t := TreeAt(calls, at); RetsEmpty(TreePut(calls, at, Replaced(t, t1)), Relinked(g, t, t1))
  {
    hide Results, ResultsCalls, ResultsSeq, Matching, Replaced, Relinked, Before, After, Put, At;
    var t := TreeAt(calls, at);
    var after := TreePut(calls, at, Replaced(t, t1));
    forall c | c in after && c.ret != null
      ensures c.ret in g && Relinked(g, t, t1)[c.ret].v.res == null
    {
      var j :| 0 <= j < |after| && after[j] == c;
      assert calls[j].ret == c.ret;
      RetsAround(calls, at, calls[j]);
    }
  }

  /** Inserting the new calls and then replacing gives the same program as the reverse. */
  lemma TreePutInsert(calls: seq<HCall>, at: Place, new_: seq<HCall>, t2: Tree)
    requires HasPlace(calls, at)
    ensures var whole := calls[..at.ci] + new_ + calls[at.ci..]; var at' := at.(ci := at.ci + |new_|);
      && HasPlace(whole, at') && TreeAt(whole, at') == TreeAt(calls, at)
      && whole[..at'.ci] == calls[..at.ci] + new_
      && var put := TreePut(calls, at, t2); TreePut(whole, at', t2) == put[..at.ci] + new_ + put[at.ci..]
  {
    var whole, ci := calls[..at.ci] + new_ + calls[at.ci..], at.ci + |new_|;
    assert whole[ci] == calls[at.ci];
    var put := TreePut(calls, at, t2);
    assert put[..at.ci] == calls[..at.ci];
    assert put[at.ci..] == calls[at.ci..][0 := put[at.ci]];
  }

  lemma RegenerateInv(p: Prog, at: Place, t1: Tree, new_: seq<HCall>, g: Graph)
    requires HasPlace(p.calls, at)
    requires var fresh_ := Nodes(ResultsCalls(new_)); var results := Nodes(Results(t1));
      && results <= g.Keys && fresh_ !! results && Distinct(Results(t1)) && Ready(p, at.ci, new_, fresh_ + results, g)
      && Matching(TreeAt(p.calls, at), t1) && Fits(TreeAt(p.calls, at), t1,
                                                   Nodes(ResultsCalls(p.calls[..at.ci])) + fresh_, g)
    ensures Nodes(Results(TreeAt(p.calls, at))) <= g.Keys
    ensures var t := TreeAt(p.calls, at); var put := TreePut(p.calls, at, Replaced(t, t1));
      var after := put[..at.ci] + new_ + put[at.ci..];
      Inv(ResultsCalls(after), {}, Relinked(g, t, t1)) && RetsEmpty(after, Relinked(g, t, t1))
  {
    var fresh_, results := Nodes(ResultsCalls(new_)), Nodes(Results(t1));
    ReadyDisjoint(p, at.ci, new_, fresh_ + results, g);
    hide Results, ResultsCalls, Inv, RetsEmpty, Fits, Matching, Replaced, Relinked, Ready, Distinct, Put, At, TreePut;
    var whole, at' := p.calls[..at.ci] + new_ + p.calls[at.ci..], at.(ci := at.ci + |new_|);
    ReadyInserts(p, at.ci, new_, fresh_ + results, g);
    assert fresh_ + results - fresh_ == results;
    InsertedNodes(p.calls, at.ci, new_);
    OrderSplit(p.calls[..at.ci], new_);
    TreePutInsert(p.calls, at, new_, Replaced(TreeAt(p.calls, at), t1));
    TreePutKeepsInv(whole, at', t1, Nodes(ResultsCalls(p.calls[..at.ci])) + fresh_, g);
  }

  lemma ReadyDisjoint(p: Prog, idx: nat, new_: seq<HCall>, pending: set<ResultArg>, g: Graph)
    requires idx <= |p.calls| && Ready(p, idx, new_, pending, g)
    ensures pending !! Nodes(ResultsCalls(p.calls))
  {
  }
}
