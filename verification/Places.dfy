/** Places inside a program: an argument of a call or a part of it, in the trees and in memory. */
module Places {
  import opened ProgTypes
  import opened DefUse
  import opened ArgNodes
  import opened ReplaceTrees

  /** Argument ai of call ci, or a part of it. */
  datatype Place = Place(ci: nat, ai: nat, path: seq<nat>)

  predicate HasPlace(calls: seq<HCall>, at: Place) {
    at.ci < |calls| && at.ai < |calls[at.ci].args| && HasPath(calls[at.ci].args[at.ai], at.path)
  }

  function TreeAt(calls: seq<HCall>, at: Place): Tree
    requires HasPlace(calls, at)
  {
    At(calls[at.ci].args[at.ai], at.path)
  }

  function CallPut(c: HCall, ai: nat, path: seq<nat>, new_: Tree): HCall
    requires ai < |c.args| && HasPath(c.args[ai], path)
  {
    c.(args := c.args[ai := Put(c.args[ai], path, new_)])
  }

  function TreePut(calls: seq<HCall>, at: Place, new_: Tree): (after: seq<HCall>)
    requires HasPlace(calls, at)
    ensures |after| == |calls|
  {
    calls[at.ci := CallPut(calls[at.ci], at.ai, at.path, new_)]
  }

  // ---- in memory ----

  ghost function RefIn(h: Heap, ncs: seq<NCall>, cs: seq<HCall>, at: Place): Ref
    requires RepCalls(h, ncs, cs) && HasPlace(cs, at)
  {
    RepAt(h, ncs[at.ci].args, cs[at.ci].args, at.ai);
    RefAt(h, ncs[at.ci].args[at.ai], cs[at.ci].args[at.ai], at.path)
  }

  method LocateIn(ncs: seq<NCall>, at: Place, ghost cs: seq<HCall>, ghost h: Heap) returns (q: Ref)
    requires Current(h) && RepCalls(h, ncs, cs) && HasPlace(cs, at)
    ensures q == RefIn(h, ncs, cs, at)
  {
    RepAt(h, ncs[at.ci].args, cs[at.ci].args, at.ai);
    q := Locate(ncs[at.ci].args[at.ai], at.path, cs[at.ci].args[at.ai], h);
  }

  /** Looks for a part of an argument that may not be there. */
  method Probe(ref: Ref, path: seq<nat>, ghost t: Tree, ghost h: Heap) returns (q: Option<Ref>)
    requires Current(h) && Rep(h, ref, t)
    ensures q.Some? <==> HasPath(t, path)
    ensures q.Some? ==> q.value == RefAt(h, ref, t, path)
    decreases |path|
  {
    q := None;
    if path == [] {
      q := Some(ref);
    } else if ref.Plain? {
      assert ref.n.v == h[ref.n];
      match ref.n.v
      case NPointer(_, _, _, pointee) =>
        if path[0] == 0 && pointee.Some? {
          q := Probe(pointee.value, path[1..], t.pointee.value, h);
        }
      case NUnion(_, option) =>
        if path[0] == 0 {
          q := Probe(option, path[1..], t.option, h);
        }
      case NGroup(_, inner) =>
        if path[0] < |inner| {
          RepAt(h, inner, t.inner, path[0]);
          q := Probe(inner[path[0]], path[1..], t.inner[path[0]], h);
        }
      case _ =>
    }
  }

  method ProbeIn(ncs: seq<NCall>, at: Place, ghost cs: seq<HCall>, ghost h: Heap) returns (q: Option<Ref>)
    requires Current(h) && RepCalls(h, ncs, cs)
    ensures q.Some? <==> HasPlace(cs, at)
    ensures q.Some? ==> q.value == RefIn(h, ncs, cs, at)
  {
    hide Rep, RepSeq, FootSeq;
    q := None;
    if at.ci < |ncs| {
      assert RepCall(h, ncs[at.ci], cs[at.ci]);
      SameLength(h, ncs[at.ci].args, cs[at.ci].args);
      if at.ai < |ncs[at.ci].args| {
        RepAt(h, ncs[at.ci].args, cs[at.ci].args, at.ai);
        q := Probe(ncs[at.ci].args[at.ai], at.path, cs[at.ci].args[at.ai], h);
      }
    }
  }

  lemma SameLength(h: Heap, refs: seq<Ref>, ts: seq<Tree>)
    requires RepSeq(h, refs, ts)
    ensures |refs| == |ts|
  {
  }

  method CollectCall(nc: NCall, ghost c: HCall, ghost h: Heap) returns (rs: seq<ResultArg>)
    requires Current(h) && RepCall(h, nc, c)
    ensures rs == ResultsCall(c)
  {
    rs := CollectAll(nc.args, c.args, h);
    if nc.ret != null {
      rs := rs + [nc.ret];
    }
  }

  lemma PlaceRep(h: Heap, ncs: seq<NCall>, cs: seq<HCall>, at: Place)
    requires RepCalls(h, ncs, cs) && HasPlace(cs, at)
    ensures var q := RefIn(h, ncs, cs, at);
      Rep(h, q, TreeAt(cs, at)) && Foot(h, q, TreeAt(cs, at)) <= FootCall(h, ncs[at.ci], cs[at.ci])
  {
    hide RepSeq, FootSeq, Rep, Foot;
    var refs, ts := ncs[at.ci].args, cs[at.ci].args;
    assert RepCall(h, ncs[at.ci], cs[at.ci]);
    RepAt(h, refs, ts, at.ai);
    PartRep(h, refs[at.ai], ts[at.ai], at.path);
  }

  /** The part at a place has changed in place, from nodes f to new ones that no call has. */
  ghost predicate ChangedIn(h: Heap, h1: Heap, ncs: seq<NCall>, cs: seq<HCall>, q: Ref, t2: Tree, f: set<Node>) {
    && OnlyAt(h, h1, f) && Rep(h1, q, t2) && |ncs| == |cs|
    && forall i :: 0 <= i < |cs| ==> Foot(h1, q, t2) !! (FootCall(h, ncs[i], cs[i]) - f)
  }

  /** Changing a part in place changes the program at that place. */
  lemma TreePutRep(h: Heap, h1: Heap, ncs: seq<NCall>, cs: seq<HCall>, at: Place, t2: Tree)
    requires RepCalls(h, ncs, cs) && HasPlace(cs, at)
    requires var q := RefIn(h, ncs, cs, at); ChangedIn(h, h1, ncs, cs, q, t2, Foot(h, q, TreeAt(cs, at)))
    ensures RepCalls(h1, ncs, TreePut(cs, at, t2))
    ensures var q, out := RefIn(h, ncs, cs, at), TreePut(cs, at, t2);
      forall i :: 0 <= i < |cs| ==> FootCall(h1, ncs[i], out[i]) <= FootCall(h, ncs[i], cs[i]) + Foot(h1, q, t2)
  {
    hide RepSeq, FootSeq, Rep, Foot, Put, At, RefAt;
    var q, f, out, ci := RefIn(h, ncs, cs, at), Foot(h, RefIn(h, ncs, cs, at), TreeAt(cs, at)), TreePut(cs, at, t2),
      at.ci;
    PlaceRep(h, ncs, cs, at);
    assert RepCall(h, ncs[ci], cs[ci]);
    RepAt(h, ncs[ci].args, cs[ci].args, at.ai);
    CallPutRep(h, h1, ncs[ci], cs[ci], at, q, t2);
    forall i | 0 <= i < |cs| && i != ci
      ensures RepCall(h1, ncs[i], out[i]) && FootCall(h1, ncs[i], out[i]) == FootCall(h, ncs[i], cs[i])
    {
      assert f !! FootCall(h, ncs[i], cs[i]);
      FootSeqInside(h, ncs[i].args, cs[i].args);
      RepSeqFrame(h, h1, ncs[i].args, cs[i].args);
    }
    forall i, j | 0 <= i < j < |cs|
      ensures FootCall(h1, ncs[i], out[i]) !! FootCall(h1, ncs[j], out[j])
    {
      var i', j' := if i == ci then j else i, if i == ci then i else j;
      assert FootCall(h, ncs[i], cs[i]) !! FootCall(h, ncs[j], cs[j]);
      assert Foot(h1, q, t2) !! (FootCall(h, ncs[i'], cs[i']) - f);
    }
  }

  lemma CallPutRep(h: Heap, h1: Heap, nc: NCall, c: HCall, at: Place, q: Ref, t2: Tree)
    requires RepCall(h, nc, c) && at.ai < |c.args| && HasPath(c.args[at.ai], at.path)
    requires Rep(h, nc.args[at.ai], c.args[at.ai]) && q == RefAt(h, nc.args[at.ai], c.args[at.ai], at.path)
    requires var f := Foot(h, q, At(c.args[at.ai], at.path));
      OnlyAt(h, h1, f) && Rep(h1, q, t2) && Foot(h1, q, t2) !! (FootCall(h, nc, c) - f)
    ensures RepCall(h1, nc, CallPut(c, at.ai, at.path, t2))
    ensures var f := Foot(h, q, At(c.args[at.ai], at.path));
      FootCall(h1, nc, CallPut(c, at.ai, at.path, t2)) <= FootCall(h, nc, c) - f + Foot(h1, q, t2)
  {
    hide RepSeq, FootSeq, Rep, Foot, Put, At, RefAt;
    RepAt(h, nc.args, c.args, at.ai);
    var ai, ref, t := at.ai, nc.args[at.ai], c.args[at.ai];
    PartRep(h, ref, t, at.path);
    RepPut(h, h1, ref, t, at.path, t2);
    RepSeqPut(h, h1, nc.args, c.args, ai, Put(t, at.path, t2));
  }

  // ---- regenerating ----

  /** A generated argument and the calls generated with it. */
  ghost predicate Generated(h: Heap, ref1: Ref, t1: Tree, new_: seq<NCall>, newCalls: seq<HCall>) {
    && Rep(h, ref1, t1) && RepCalls(h, new_, newCalls)
    && forall i :: 0 <= i < |newCalls| ==> Foot(h, ref1, t1) !! FootCall(h, new_[i], newCalls[i])
  }

  /** Replacing an argument in place and inserting calls, in memory. */
  lemma RegenerateShape(h0: Heap, h2: Heap, ncs: seq<NCall>, cs: seq<HCall>, at: Place, ref1: Ref, t1: Tree,
                        new_: seq<NCall>, newCalls: seq<HCall>)
    requires h0.Keys !! h2.Keys && RepCalls(h0, ncs, cs) && HasPlace(cs, at) && Generated(h2, ref1, t1, new_, newCalls)
    requires Matching(TreeAt(cs, at), t1)
    ensures var h, t := h0 + h2, TreeAt(cs, at);
      && RepCalls(h, ncs, cs)
      && var q := RefIn(h, ncs, cs, at);
      && Rep(h, q, t) && Rep(h, ref1, t1) && Foot(h, q, t) !! Foot(h, ref1, t1)
      && var put := TreePut(cs, at, Replaced(t, t1));
      RepCalls(Overwritten(h, q, ref1, t), ncs[..at.ci] + new_ + ncs[at.ci..], put[..at.ci] + newCalls + put[at.ci..])
  {
    hide RepCall, FootCall, Rep, Foot, Put, At, RefAt, Matching, Replaced, Overwritten, TreePut;
    var h, t := h0 + h2, TreeAt(cs, at);
    RepCallsMore(h0, h, ncs, cs);
    RepCallsMore(h2, h, new_, newCalls);
    FootInside(h2, ref1, t1);
    RepFrame(h2, h, ref1, t1);
    PlaceRep(h, ncs, cs, at);
    var q := RefIn(h, ncs, cs, at);
    OverwrittenRep(h, q, ref1, t, t1);
    var h1, t2, f := Overwritten(h, q, ref1, t), Replaced(t, t1), Foot(h, q, t);
    assert f <= h0.Keys;
    assert ChangedIn(h, h1, ncs, cs, q, t2, f);
    TreePutRep(h, h1, ncs, cs, at, t2);
    NewCallsStay(h, h1, new_, newCalls, f);
    RepCallsInsert(h1, ncs, TreePut(cs, at, t2), at.ci, new_, newCalls);
  }

  lemma NewCallsStay(h: Heap, h1: Heap, new_: seq<NCall>, newCalls: seq<HCall>, f: set<Node>)
    requires RepCalls(h, new_, newCalls) && OnlyAt(h, h1, f)
    requires forall i :: 0 <= i < |newCalls| ==> f !! FootCall(h, new_[i], newCalls[i])
    ensures RepCalls(h1, new_, newCalls)
    ensures forall i :: 0 <= i < |newCalls| ==> FootCall(h1, new_[i], newCalls[i]) == FootCall(h, new_[i], newCalls[i])
  {
    hide FootCall, RepCall;
    RepCallsFrame(h, h1, new_, newCalls);
  }

  /** Finds the argument at a place and replaces it there. */
  method ReplaceAt(ncs: seq<NCall>, at: Place, ref1: Ref, ghost cs: seq<HCall>, ghost t1: Tree, ghost s: set<ResultArg>,
                   ghost h: Heap)
    requires Current(h) && RepCalls(h, ncs, cs) && HasPlace(cs, at)
    requires var t, q := TreeAt(cs, at), RefIn(h, ncs, cs, at);
      && Matching(t, t1) && Nodes(Results(t)) <= s && Nodes(Results(t1)) <= s
      && Rep(h, q, t) && Rep(h, ref1, t1) && Foot(h, q, t) !! Foot(h, ref1, t1)
    requires forall r :: r in s && r.v.res != null ==> r.v.res in s
    modifies s, h.Keys
    ensures Snap(s) == Relinked(old(Snap(s)), TreeAt(cs, at), t1)
    ensures Current(Overwritten(h, RefIn(h, ncs, cs, at), ref1, TreeAt(cs, at)))
  {
    hide RepCalls, Rep, Foot, Matching, Relinked, Overwritten, Results;
    var q := LocateIn(ncs, at, cs, h);
    ReplaceArg(q, ref1, TreeAt(cs, at), t1, s, h);
  }

  // ---- changing one node ----

  /** Overwriting the buffer of a data argument. */
  lemma DataPut(h: Heap, ncs: seq<NCall>, cs: seq<HCall>, at: Place, data: seq<char>)
    requires RepCalls(h, ncs, cs) && HasPlace(cs, at) && TreeAt(cs, at).Leaf? && TreeAt(cs, at).arg.DataArg?
    ensures var q := RefIn(h, ncs, cs, at);
      && q.Plain? && q.n in h && h[q.n].NData? && h[q.n].buf in h
      && RepCalls(h[h[q.n].buf := NBytes(data)], ncs, TreePut(cs, at, Leaf(TreeAt(cs, at).arg.(data := data))))
  {
    hide RepSeq, FootSeq, HasPath, At, RefIn;
    PlaceRep(h, ncs, cs, at);
    var q, t := RefIn(h, ncs, cs, at), TreeAt(cs, at);
    var h1, t2 := h[h[q.n].buf := NBytes(data)], Leaf(t.arg.(data := data));
    assert Foot(h, q, t) == Foot(h1, q, t2) == {q.n, h[q.n].buf} && Rep(h1, q, t2);
    TreePutRep(h, h1, ncs, cs, at, t2);
  }

  /** Changing the address of a pointer. */
  lemma AddressPut(h: Heap, ncs: seq<NCall>, cs: seq<HCall>, at: Place, address: u64)
    requires RepCalls(h, ncs, cs) && HasPlace(cs, at) && TreeAt(cs, at).Pointer?
    ensures var q := RefIn(h, ncs, cs, at);
      && q.Plain? && q.n in h && h[q.n].NPointer?
      && RepCalls(h[q.n := h[q.n].(address := address)], ncs, TreePut(cs, at, TreeAt(cs, at).(address := address)))
  {
    hide RepSeq, FootSeq, HasPath, At, RefIn;
    PlaceRep(h, ncs, cs, at);
    var q, t := RefIn(h, ncs, cs, at), TreeAt(cs, at);
    var h1, t2 := h[q.n := h[q.n].(address := address)], t.(address := address);
    if t.pointee.Some? {
      FootInside(h, h[q.n].pointee.value, t.pointee.value);
      RepFrame(h, h1, h[q.n].pointee.value, t.pointee.value);
    }
    assert Foot(h, q, t) == Foot(h1, q, t2) && Rep(h1, q, t2);
    TreePutRep(h, h1, ncs, cs, at, t2);
  }

  /** Overwriting a pointer by one that points to nothing. */
  lemma SpecialPut(h: Heap, ncs: seq<NCall>, cs: seq<HCall>, at: Place, address: u64)
    requires RepCalls(h, ncs, cs) && HasPlace(cs, at) && TreeAt(cs, at).Pointer?
    ensures var q := RefIn(h, ncs, cs, at);
      && q.Plain? && q.n in h && h[q.n].NPointer? && h[q.n].typ == TreeAt(cs, at).typ
      && RepCalls(h[q.n := NPointer(h[q.n].typ, address, 0, None)], ncs,
                  TreePut(cs, at, Pointer(TreeAt(cs, at).typ, address, 0, None)))
  {
    hide RepSeq, FootSeq, HasPath, At, RefIn;
    PlaceRep(h, ncs, cs, at);
    var q, t := RefIn(h, ncs, cs, at), TreeAt(cs, at);
    var h1, t2 := h[q.n := NPointer(h[q.n].typ, address, 0, None)], Pointer(t.typ, address, 0, None);
    assert Foot(h1, q, t2) == {q.n} && q.n in Foot(h, q, t) && Rep(h1, q, t2);
    TreePutRep(h, h1, ncs, cs, at, t2);
  }
}
