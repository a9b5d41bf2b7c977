/** Argument trees in memory. Every argument is an object, and so is the buffer of a data argument; a
    reference to an argument is a reference to such an object. A heap represents a tree if its nodes have
    the tree's contents and no node occurs twice. */
module ArgNodes {
  import opened ProgTypes
  import opened DefUse

  datatype Ref = Plain(n: Node) | Res(r: ResultArg)

  datatype NodeVal =
    | NConst(typ: Type, val: u64)
    | NData(typ: Type, buf: Node, outSize: u64)
    | NBytes(data: seq<char>)
    | NPointer(typ: Type, address: u64, vmaSize: u64, pointee: Option<Ref>)
    | NGroup(typ: Type, inner: seq<Ref>)
    | NUnion(typ: Type, option: Ref)

  class Node {
    var v: NodeVal

    constructor (v: NodeVal)
      ensures this.v == v
    {
      this.v := v;
    }
  }

  datatype NCall = NCall(meta: nat, args: seq<Ref>, ret: ResultArg?)

  /** The contents of some nodes. */
  type Heap = map<Node, NodeVal>

  ghost predicate Current(h: Heap)
    reads h.Keys
  {
    forall n :: n in h ==> n.v == h[n]
  }

  ghost function Shape(s: set<Node>): (h: Heap)
    reads s
    ensures h.Keys == s
  {
    map n | n in s :: n.v
  }

  lemma ShapeSum(a: set<Node>, b: set<Node>)
    requires a !! b
    ensures Shape(a + b) == Shape(a) + Shape(b) && Current(Shape(a + b))
  {
  }

  lemma ShapeIs(s: set<Node>, h: Heap)
    requires Current(h) && h.Keys == s
    ensures Shape(s) == h
  {
  }

  // ---- representation ----

  /** The nodes of the tree t at a reference. */
  ghost function Foot(h: Heap, ref: Ref, t: Tree): set<Node>
    decreases t, 0
  {
    if !ref.Plain? || ref.n !in h then {}
    else
      {ref.n} +
      match t
      case Leaf(_) => if h[ref.n].NData? then {h[ref.n].buf} else {}
      case Pointer(_, _, _, pointee) =>
        if h[ref.n].NPointer? && h[ref.n].pointee.Some? && pointee.Some?
        then Foot(h, h[ref.n].pointee.value, pointee.value) else {}
      case Union(_, option) => if h[ref.n].NUnion? then Foot(h, h[ref.n].option, option) else {}
      case Group(_, inner) => if h[ref.n].NGroup? then FootSeq(h, h[ref.n].inner, inner) else {}
      case Result(_) => {}
  }

  ghost function FootSeq(h: Heap, refs: seq<Ref>, ts: seq<Tree>): set<Node>
    decreases ts
  {
    if refs == [] || ts == [] then {} else Foot(h, refs[0], ts[0]) + FootSeq(h, refs[1..], ts[1..])
  }

  /** The heap holds the tree t at a reference. */
  ghost predicate Rep(h: Heap, ref: Ref, t: Tree)
    decreases t, 0
  {
    if t.Result? then ref == Res(t.r)
    else
      && ref.Plain? && ref.n in h
      && match h[ref.n]
         case NConst(typ, val) => t == Leaf(ConstArg(typ, val))
         case NData(typ, buf, outSize) =>
           buf in h && buf != ref.n && h[buf].NBytes? && t == Leaf(DataArg(typ, h[buf].data, outSize))
         case NBytes(_) => false
         case NPointer(typ, address, vmaSize, pointee) =>
           && t.Pointer? && t == Pointer(typ, address, vmaSize, t.pointee) && t.pointee.Some? == pointee.Some?
           && (pointee.Some? ==>
                 Rep(h, pointee.value, t.pointee.value) && ref.n !in Foot(h, pointee.value, t.pointee.value))
         case NUnion(typ, option) =>
           t.Union? && t.typ == typ && Rep(h, option, t.option) && ref.n !in Foot(h, option, t.option)
         case NGroup(typ, inner) =>
           t.Group? && t.typ == typ && RepSeq(h, inner, t.inner) && ref.n !in FootSeq(h, inner, t.inner)
  }

  ghost predicate RepSeq(h: Heap, refs: seq<Ref>, ts: seq<Tree>)
    decreases ts
  {
    && |refs| == |ts|
    && (ts != [] ==>
          && Rep(h, refs[0], ts[0]) && RepSeq(h, refs[1..], ts[1..])
          && Foot(h, refs[0], ts[0]) !! FootSeq(h, refs[1..], ts[1..]))
  }

  ghost predicate Same(h: Heap, h1: Heap, s: set<Node>) {
    forall n :: n in s && n in h ==> n in h1 && h1[n] == h[n]
  }

  /** A tree is in the heap, and the rest of the heap does not matter. */
  lemma {:induction false} RepFrame(h: Heap, h1: Heap, ref: Ref, t: Tree)
    requires Rep(h, ref, t) && Same(h, h1, Foot(h, ref, t))
    ensures Rep(h1, ref, t) && Foot(h1, ref, t) == Foot(h, ref, t) <= h.Keys
    decreases t, 0
  {
    if !t.Result? {
      assert ref.n in Foot(h, ref, t);
      match h[ref.n]
      case NPointer(_, _, _, pointee) =>
        if pointee.Some? {
          RepFrame(h, h1, pointee.value, t.pointee.value);
        }
      case NUnion(_, option) => RepFrame(h, h1, option, t.option);
      case NGroup(_, inner) => RepSeqFrame(h, h1, inner, t.inner);
      case _ =>
    }
  }

  lemma {:induction false} RepSeqFrame(h: Heap, h1: Heap, refs: seq<Ref>, ts: seq<Tree>)
    requires RepSeq(h, refs, ts) && Same(h, h1, FootSeq(h, refs, ts))
    ensures RepSeq(h1, refs, ts) && FootSeq(h1, refs, ts) == FootSeq(h, refs, ts) <= h.Keys
    decreases ts
  {
    if ts != [] {
      RepFrame(h, h1, refs[0], ts[0]);
      RepSeqFrame(h, h1, refs[1..], ts[1..]);
    }
  }

  lemma FootInside(h: Heap, ref: Ref, t: Tree)
    requires Rep(h, ref, t)
    ensures Foot(h, ref, t) <= h.Keys
  {
    RepFrame(h, h, ref, t);
  }

  lemma FootSeqInside(h: Heap, refs: seq<Ref>, ts: seq<Tree>)
    requires RepSeq(h, refs, ts)
    ensures FootSeq(h, refs, ts) <= h.Keys
  {
    RepSeqFrame(h, h, refs, ts);
  }

  // ---- calls ----

  ghost predicate RepCall(h: Heap, nc: NCall, c: HCall) {
    nc.meta == c.meta && nc.ret == c.ret && RepSeq(h, nc.args, c.args)
  }

  ghost function FootCall(h: Heap, nc: NCall, c: HCall): set<Node> { FootSeq(h, nc.args, c.args) }

  ghost predicate RepCalls(h: Heap, ncs: seq<NCall>, cs: seq<HCall>)
    ensures RepCalls(h, ncs, cs) ==> |ncs| == |cs|
  {
    && |ncs| == |cs| && (forall i :: 0 <= i < |cs| ==> RepCall(h, ncs[i], cs[i]))
    && (forall i, j :: 0 <= i < j < |cs| ==> FootCall(h, ncs[i], cs[i]) !! FootCall(h, ncs[j], cs[j]))
  }

  lemma RepCallsFrame(h: Heap, h1: Heap, ncs: seq<NCall>, cs: seq<HCall>)
    requires RepCalls(h, ncs, cs) && forall i :: 0 <= i < |cs| ==> Same(h, h1, FootCall(h, ncs[i], cs[i]))
    ensures RepCalls(h1, ncs, cs)
    ensures forall i :: 0 <= i < |cs| ==> FootCall(h1, ncs[i], cs[i]) == FootCall(h, ncs[i], cs[i]) <= h.Keys
  {
    hide RepSeq, FootSeq, Same;
    forall i | 0 <= i < |cs|
      ensures RepCall(h1, ncs[i], cs[i]) && FootCall(h1, ncs[i], cs[i]) == FootCall(h, ncs[i], cs[i]) <= h.Keys
    {
      RepSeqFrame(h, h1, ncs[i].args, cs[i].args);
    }
  }

  lemma CallsInside(h: Heap, ncs: seq<NCall>, cs: seq<HCall>)
    requires RepCalls(h, ncs, cs)
    ensures forall i :: 0 <= i < |cs| ==> FootCall(h, ncs[i], cs[i]) <= h.Keys
  {
    hide RepSeq, FootSeq;
    forall i | 0 <= i < |cs|
      ensures FootCall(h, ncs[i], cs[i]) <= h.Keys
    {
      FootSeqInside(h, ncs[i].args, cs[i].args);
    }
  }

  /** In a larger heap with the same contents nothing changes. */
  lemma RepCallsMore(h: Heap, h1: Heap, ncs: seq<NCall>, cs: seq<HCall>)
    requires RepCalls(h, ncs, cs) && forall n :: n in h ==> n in h1 && h1[n] == h[n]
    ensures RepCalls(h1, ncs, cs)
    ensures forall i :: 0 <= i < |cs| ==> FootCall(h1, ncs[i], cs[i]) == FootCall(h, ncs[i], cs[i]) <= h.Keys
  {
    CallsInside(h, ncs, cs);
    RepCallsFrame(h, h1, ncs, cs);
  }

  /** Calls of separate heaps side by side. */
  lemma RepCallsJoin(h0: Heap, h2: Heap, ncs: seq<NCall>, cs: seq<HCall>, ncs2: seq<NCall>, cs2: seq<HCall>)
    requires h0.Keys !! h2.Keys && RepCalls(h0, ncs, cs) && RepCalls(h2, ncs2, cs2)
    ensures RepCalls(h0 + h2, ncs + ncs2, cs + cs2)
  {
    hide RepCall, FootCall;
    var h := h0 + h2;
    RepCallsMore(h0, h, ncs, cs);
    RepCallsMore(h2, h, ncs2, cs2);
    var all, alls := ncs + ncs2, cs + cs2;
    forall i, j | 0 <= i < j < |alls|
      ensures FootCall(h, all[i], alls[i]) !! FootCall(h, all[j], alls[j])
    {
      var k := |cs|;
      assert i < k ==> FootCall(h, all[i], alls[i]) == FootCall(h, ncs[i], cs[i]) <= h0.Keys;
      assert i >= k ==> FootCall(h, all[i], alls[i]) == FootCall(h, ncs2[i - k], cs2[i - k]) <= h2.Keys;
      assert j < k ==> FootCall(h, all[j], alls[j]) == FootCall(h, ncs[j], cs[j]) <= h0.Keys;
      assert j >= k ==> FootCall(h, all[j], alls[j]) == FootCall(h, ncs2[j - k], cs2[j - k]) <= h2.Keys;
    }
  }

  /** Other calls can be inserted that share no node. */
  lemma RepCallsInsert(h: Heap, ncs: seq<NCall>, cs: seq<HCall>, idx: nat, ncs2: seq<NCall>, cs2: seq<HCall>)
    requires RepCalls(h, ncs, cs) && RepCalls(h, ncs2, cs2) && idx <= |cs|
    requires forall i, j :: 0 <= i < |cs| && 0 <= j < |cs2| ==>
      FootCall(h, ncs[i], cs[i]) !! FootCall(h, ncs2[j], cs2[j])
    ensures RepCalls(h, ncs[..idx] + ncs2 + ncs[idx..], cs[..idx] + cs2 + cs[idx..])
  {
    hide RepCall, FootCall;
    var all, alls, k := ncs[..idx] + ncs2 + ncs[idx..], cs[..idx] + cs2 + cs[idx..], |cs2|;
    forall i | 0 <= i < |alls|
      ensures if idx <= i < idx + k then all[i] == ncs2[i - idx] && alls[i] == cs2[i - idx]
              else var i0 := if i < idx then i else i - k; all[i] == ncs[i0] && alls[i] == cs[i0]
    {
    }
  }

  /** Calls of separate heaps. */
  lemma RepCallsInsertApart(h0: Heap, h2: Heap, ncs: seq<NCall>, cs: seq<HCall>, idx: nat, ncs2: seq<NCall>,
                            cs2: seq<HCall>)
    requires h0.Keys !! h2.Keys && RepCalls(h0, ncs, cs) && RepCalls(h2, ncs2, cs2) && idx <= |cs|
    ensures RepCalls(h0 + h2, ncs[..idx] + ncs2 + ncs[idx..], cs[..idx] + cs2 + cs[idx..])
  {
    hide RepCall, FootCall;
    RepCallsMore(h0, h0 + h2, ncs, cs);
    RepCallsMore(h2, h0 + h2, ncs2, cs2);
    RepCallsInsert(h0 + h2, ncs, cs, idx, ncs2, cs2);
  }

  lemma RepCallsRemove(h: Heap, ncs: seq<NCall>, cs: seq<HCall>, idx: nat)
    requires RepCalls(h, ncs, cs) && idx < |cs|
    ensures RepCalls(h, ncs[..idx] + ncs[idx + 1..], cs[..idx] + cs[idx + 1..])
  {
    hide RepCall, FootCall;
    var left, lefts := ncs[..idx] + ncs[idx + 1..], cs[..idx] + cs[idx + 1..];
    assert forall i :: 0 <= i < |lefts| ==>
      left[i] == ncs[if i < idx then i else i + 1] && lefts[i] == cs[if i < idx then i else i + 1];
  }

  /** The results of a tree, found by walking over its nodes. */
  method CollectResults(ref: Ref, ghost t: Tree, ghost h: Heap) returns (rs: seq<ResultArg>)
    requires Current(h) && Rep(h, ref, t)
    ensures rs == Results(t)
    decreases t, 0
  {
    match ref
    case Res(r) => rs := [r];
    case Plain(n) =>
      assert n.v == h[n];
      match n.v
      case NPointer(_, _, _, pointee) =>
        rs := [];
        if pointee.Some? {
          rs := CollectResults(pointee.value, t.pointee.value, h);
        }
      case NUnion(_, option) => rs := CollectResults(option, t.option, h);
      case NGroup(_, inner) => rs := CollectAll(inner, t.inner, h);
      case _ => rs := [];
  }

  method CollectAll(refs: seq<Ref>, ghost ts: seq<Tree>, ghost h: Heap) returns (rs: seq<ResultArg>)
    requires Current(h) && RepSeq(h, refs, ts)
    ensures rs == ResultsSeq(ts)
    decreases ts
  {
    rs := [];
    if refs != [] {
      var first := CollectResults(refs[0], ts[0], h);
      var rest := CollectAll(refs[1..], ts[1..], h);
      rs := first + rest;
    }
  }

  // ---- changing a part in place ----

  /** Positions inside a tree. */
  predicate HasPath(t: Tree, path: seq<nat>)
    decreases |path|
  {
    path == [] ||
    match t
    case Pointer(_, _, _, pointee) => path[0] == 0 && pointee.Some? && HasPath(pointee.value, path[1..])
    case Union(_, option) => path[0] == 0 && HasPath(option, path[1..])
    case Group(_, inner) => path[0] < |inner| && HasPath(inner[path[0]], path[1..])
    case _ => false
  }

  function At(t: Tree, path: seq<nat>): Tree
    requires HasPath(t, path)
    decreases |path|
  {
    if path == [] then t else
    match t
    case Pointer(_, _, _, pointee) => At(pointee.value, path[1..])
    case Union(_, option) => At(option, path[1..])
    case Group(_, inner) => At(inner[path[0]], path[1..])
  }

  function Put(t: Tree, path: seq<nat>, new_: Tree): Tree
    requires HasPath(t, path)
    decreases |path|
  {
    if path == [] then new_ else
    match t
    case Pointer(_, _, _, pointee) => t.(pointee := Some(Put(pointee.value, path[1..], new_)))
    case Union(typ, option) => Union(typ, Put(option, path[1..], new_))
    case Group(typ, inner) => Group(typ, inner[path[0] := Put(inner[path[0]], path[1..], new_)])
  }

  /** The part that was put is there, and a part at a diverging path is what it was. */
  lemma {:induction false} PutThere(t: Tree, path: seq<nat>, new_: Tree, q: seq<nat>)
    requires HasPath(t, path)
    ensures HasPath(Put(t, path, new_), path) && At(Put(t, path, new_), path) == new_
    ensures HasPath(t, q) && !(q <= path) && !(path <= q) ==>
      HasPath(Put(t, path, new_), q) && At(Put(t, path, new_), q) == At(t, q)
    decreases |path|
  {
    if path != [] {
      var part := if t.Group? then t.inner[path[0]] else if t.Union? then t.option else t.pointee.value;
      PutThere(part, path[1..], new_, if q == [] then [] else q[1..]);
      if q != [] && q[0] == path[0] {
        assert q == [q[0]] + q[1..] && path == [path[0]] + path[1..];
      }
    }
  }

  /** Nothing outside a set of nodes differs. */
  ghost predicate OnlyAt(h: Heap, h1: Heap, s: set<Node>) {
    h1.Keys == h.Keys && forall n :: n in h && n !in s ==> h1[n] == h[n]
  }

  ghost function RefAt(h: Heap, ref: Ref, t: Tree, path: seq<nat>): Ref
    requires Rep(h, ref, t) && HasPath(t, path)
    decreases |path|
  {
    if path == [] then ref
    else
      match t
      case Pointer(_, _, _, pointee) => RefAt(h, h[ref.n].pointee.value, pointee.value, path[1..])
      case Union(_, option) => RefAt(h, h[ref.n].option, option, path[1..])
      case Group(_, inner) =>
        RepAt(h, h[ref.n].inner, inner, path[0]);
        RefAt(h, h[ref.n].inner[path[0]], inner[path[0]], path[1..])
  }

  lemma {:induction false} RepAt(h: Heap, refs: seq<Ref>, ts: seq<Tree>, i: nat)
    requires RepSeq(h, refs, ts) && i < |ts|
    ensures |refs| == |ts| && Rep(h, refs[i], ts[i]) && Foot(h, refs[i], ts[i]) <= FootSeq(h, refs, ts)
    decreases ts
  {
    hide Rep, Foot;
    if i > 0 {
      RepAt(h, refs[1..], ts[1..], i - 1);
    }
  }

  lemma {:induction false} PartRep(h: Heap, ref: Ref, t: Tree, path: seq<nat>)
    requires Rep(h, ref, t) && HasPath(t, path)
    ensures Rep(h, RefAt(h, ref, t, path), At(t, path))
    ensures Foot(h, RefAt(h, ref, t, path), At(t, path)) <= Foot(h, ref, t)
    decreases |path|
  {
    if path != [] {
      match t
      case Pointer(_, _, _, pointee) => PartRep(h, h[ref.n].pointee.value, pointee.value, path[1..]);
      case Union(_, option) => PartRep(h, h[ref.n].option, option, path[1..]);
      case Group(_, inner) =>
        RepAt(h, h[ref.n].inner, inner, path[0]);
        PartRep(h, h[ref.n].inner[path[0]], inner[path[0]], path[1..]);
    }
  }

  /** Finds a part of an argument. */
  method Locate(ref: Ref, path: seq<nat>, ghost t: Tree, ghost h: Heap) returns (q: Ref)
    requires Current(h) && Rep(h, ref, t) && HasPath(t, path)
    ensures q == RefAt(h, ref, t, path)
    decreases |path|
  {
    q := ref;
    if path != [] {
      assert ref.n.v == h[ref.n];
      match ref.n.v
      case NPointer(_, _, _, pointee) => q := Locate(pointee.value, path[1..], t.pointee.value, h);
      case NUnion(_, option) => q := Locate(option, path[1..], t.option, h);
      case NGroup(_, inner) =>
        RepAt(h, inner, t.inner, path[0]);
        q := Locate(inner[path[0]], path[1..], t.inner[path[0]], h);
    }
  }

  /** The heap h1 differs from h only at the nodes f of a part, where t2 now stands at q, on none of the
      other nodes. */
  ghost predicate Changed(h: Heap, h1: Heap, q: Ref, t2: Tree, f: set<Node>, whole: set<Node>) {
    OnlyAt(h, h1, f) && Rep(h1, q, t2) && Foot(h1, q, t2) !! (whole - f) && f <= whole
  }

  /** Changing one of several trees. */
  lemma {:induction false} RepSeqPut(h: Heap, h1: Heap, refs: seq<Ref>, ts: seq<Tree>, i: nat, t2: Tree)
    requires RepSeq(h, refs, ts) && i < |ts|
    requires Changed(h, h1, refs[i], t2, Foot(h, refs[i], ts[i]), FootSeq(h, refs, ts))
    ensures RepSeq(h1, refs, ts[i := t2])
    ensures FootSeq(h1, refs, ts[i := t2]) <= FootSeq(h, refs, ts) - Foot(h, refs[i], ts[i]) + Foot(h1, refs[i], t2)
    decreases ts
  {
    hide Rep, Foot;
    var out, rest := ts[i := t2], ts[1..];
    if i == 0 {
      assert out[0] == t2 && out[1..] == rest;
      RepSeqFrame(h, h1, refs[1..], rest);
    } else {
      RepAt(h, refs[1..], rest, i - 1);
      assert out[0] == ts[0] && out[1..] == rest[i - 1 := t2];
      RepFrame(h, h1, refs[0], ts[0]);
      RepSeqPut(h, h1, refs[1..], rest, i - 1, t2);
    }
  }

  /** Changing a part of a tree in place changes the tree at that place. */
  lemma {:induction false} RepPut(h: Heap, h1: Heap, ref: Ref, t: Tree, path: seq<nat>, t2: Tree)
    requires Rep(h, ref, t) && HasPath(t, path)
    requires var q := RefAt(h, ref, t, path); Changed(h, h1, q, t2, Foot(h, q, At(t, path)), Foot(h, ref, t))
    ensures Rep(h1, ref, Put(t, path, t2))
    ensures var q := RefAt(h, ref, t, path);
      Foot(h1, ref, Put(t, path, t2)) <= Foot(h, ref, t) - Foot(h, q, At(t, path)) + Foot(h1, q, t2)
    decreases |path|
  {
    hide RepSeq, FootSeq;
    if path != [] {
      var rest := path[1..];
      var n := ref.n;
      match t
      case Pointer(_, _, _, pointee) =>
        PartRep(h, h[n].pointee.value, pointee.value, rest);
        RepPut(h, h1, h[n].pointee.value, pointee.value, rest, t2);
      case Union(_, option) =>
        PartRep(h, h[n].option, option, rest);
        RepPut(h, h1, h[n].option, option, rest, t2);
      case Group(_, inner) =>
        var i, refs := path[0], h[n].inner;
        RepAt(h, refs, inner, i);
        PartRep(h, refs[i], inner[i], rest);
        RepPut(h, h1, refs[i], inner[i], rest, t2);
        RepSeqPut(h, h1, refs, inner, i, Put(inner[i], rest, t2));
    }
  }
}
