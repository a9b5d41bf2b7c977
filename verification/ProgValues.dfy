/** What a program in memory stands for: argument trees in which results carry numbers. Cloning keeps this
    value, removing a call changes it as minimisation assumes, and whatever is done to a clone, the value
    of the original stays. */
module ProgValues {
  import opened ProgTypes
  import opened DefUse
  import opened ArgNodes
  import opened ReplaceTrees
  import opened Places
  import opened ProgClone
  import opened Validation
  import opened MinimizeCalls
  import ProgEdits

  /** Numbers for results. */
  type Names = map<DefUse.ResultArg, nat>

  function NameOf(names: Names, r: DefUse.ResultArg?): Option<nat> {
    if r != null && r in names then Some(names[r]) else None
  }

  ghost function ResultValue(names: Names, g: Graph, r: DefUse.ResultArg): Arg
    requires r in g && r in names
  {
    var v := g[r].v;
    Arg.ResultArg(v.typ, names[r], NameOf(names, v.res), v.opDiv, v.opAdd, v.val)
  }

  ghost predicate Named(names: Names, g: Graph, rs: seq<DefUse.ResultArg>) {
    Nodes(rs) <= g.Keys && Nodes(rs) <= names.Keys
  }

  ghost function ArgValue(names: Names, g: Graph, t: Tree): Arg
    requires Named(names, g, Results(t))
    decreases t, 0
  {
    match t
    case Leaf(arg) => arg
    case Pointer(typ, address, vmaSize, pointee) =>
      PointerArg(typ, address, vmaSize, if pointee.Some? then Some(ArgValue(names, g, pointee.value)) else None)
    case Group(typ, inner) => GroupArg(typ, ArgValues(names, g, inner))
    case Union(typ, option) => UnionArg(typ, ArgValue(names, g, option))
    case Result(r) => assert r in Nodes(Results(t)); ResultValue(names, g, r)
  }

  ghost function ArgValues(names: Names, g: Graph, ts: seq<Tree>): (args: seq<Arg>)
    requires Named(names, g, ResultsSeq(ts))
    decreases ts
  {
    if ts == [] then []
    else
      SplitNodes(ts);
      [ArgValue(names, g, ts[0])] + ArgValues(names, g, ts[1..])
  }

  lemma CallParts(c: HCall)
    ensures Nodes(ResultsCall(c)) == Nodes(ResultsSeq(c.args)) + if c.ret != null then {c.ret} else {}
  {
  }

  ghost function CallValue(names: Names, g: Graph, c: HCall): Call
    requires Named(names, g, ResultsCall(c))
  {
    CallParts(c);
    Call(c.meta, ArgValues(names, g, c.args), if c.ret != null then Some(ResultValue(names, g, c.ret)) else None)
  }

  lemma CallsParts(cs: seq<HCall>, i: nat)
    requires i < |cs|
    ensures Nodes(ResultsCall(cs[i])) <= Nodes(ResultsCalls(cs))
  {
    ProgEdits.CallAt(cs, i);
  }

  ghost function CallsValue(names: Names, g: Graph, cs: seq<HCall>): (vs: seq<Call>)
    requires Named(names, g, ResultsCalls(cs))
    ensures |vs| == |cs|
  {
    seq(|cs|, i requires 0 <= i < |cs| => CallsParts(cs, i); CallValue(names, g, cs[i]))
  }

  // ---- cloning ----

  /** A copy has the number of its original. */
  ghost predicate SameNames(m: Copies, names: Names, names1: Names) {
    forall r :: r in m ==> r in names && m[r] in names1 && names1[m[r]] == names[r]
  }

  ghost predicate CopiedNames(m: Copies, g: Graph, c: Graph, names: Names, names1: Names) {
    CopyOf(m, g, c) && SameNames(m, names, names1)
  }

  lemma {:induction false} RenamedValue(t: Tree, m: Copies, g: Graph, c: Graph, names: Names, names1: Names)
    requires CopiedNames(m, g, c, names, names1) && Nodes(Results(t)) <= m.Keys
    ensures Named(names, g, Results(t)) && Named(names1, c, Results(Renamed(t, m)))
    ensures ArgValue(names1, c, Renamed(t, m)) == ArgValue(names, g, t)
    decreases t, 0
  {
    MappedNamed(Results(t), m, g, c, names, names1);
    ResultsRenamed(t, m);
    match t
    case Pointer(_, _, _, pointee) =>
      if pointee.Some? {
        RenamedValue(pointee.value, m, g, c, names, names1);
      }
    case Group(_, inner) => RenamedValues(inner, m, g, c, names, names1);
    case Union(_, option) => RenamedValue(option, m, g, c, names, names1);
    case Result(r) =>
      assert r in Nodes(Results(t));
      ResultCopied(r, m, g, c, names, names1);
    case _ =>
  }

  lemma ResultCopied(r: DefUse.ResultArg, m: Copies, g: Graph, c: Graph, names: Names, names1: Names)
    requires CopiedNames(m, g, c, names, names1) && r in m
    ensures r in g && r in names && m[r] in c && m[r] in names1
    ensures ResultValue(names1, c, m[r]) == ResultValue(names, g, r)
  {
  }

  lemma MappedNamed(rs: seq<DefUse.ResultArg>, m: Copies, g: Graph, c: Graph, names: Names, names1: Names)
    requires CopiedNames(m, g, c, names, names1) && Nodes(rs) <= m.Keys
    ensures Named(names, g, rs) && Named(names1, c, Mapped(rs, m))
  {
    var qs := Mapped(rs, m);
    forall i | 0 <= i < |rs|
      ensures rs[i] in m && qs[i] == m[rs[i]]
    {
      assert rs[i] in Nodes(rs);
    }
  }

  lemma {:induction false} RenamedValues(ts: seq<Tree>, m: Copies, g: Graph, c: Graph, names: Names, names1: Names)
    requires CopiedNames(m, g, c, names, names1) && Nodes(ResultsSeq(ts)) <= m.Keys
    ensures Named(names, g, ResultsSeq(ts)) && Named(names1, c, ResultsSeq(RenamedSeq(ts, m)))
    ensures ArgValues(names1, c, RenamedSeq(ts, m)) == ArgValues(names, g, ts)
    decreases ts
  {
    hide CopiedNames, Results, Renamed;
    MappedNamed(ResultsSeq(ts), m, g, c, names, names1);
    ResultsSeqRenamed(ts, m);
    if ts != [] {
      SplitNodes(ts);
      RenamedValue(ts[0], m, g, c, names, names1);
      RenamedValues(ts[1..], m, g, c, names, names1);
      var out := RenamedSeq(ts, m);
      assert out[0] == Renamed(ts[0], m) && out[1..] == RenamedSeq(ts[1..], m);
    }
  }

  lemma RenamedCallValue(c: HCall, m: Copies, g: Graph, g1: Graph, names: Names, names1: Names)
    requires CopiedNames(m, g, g1, names, names1) && Nodes(ResultsCall(c)) <= m.Keys
    ensures Named(names, g, ResultsCall(c)) && Named(names1, g1, ResultsCall(RenamedCall(c, m)))
    ensures CallValue(names1, g1, RenamedCall(c, m)) == CallValue(names, g, c)
  {
    hide CopiedNames, ResultsSeq;
    CallParts(c);
    CallParts(RenamedCall(c, m));
    RenamedValues(c.args, m, g, g1, names, names1);
    if c.ret != null {
      ResultCopied(c.ret, m, g, g1, names, names1);
    }
  }

  lemma {:induction false} RenamedCallsAt(cs: seq<HCall>, m: Copies)
    ensures |RenamedCalls(cs, m)| == |cs| && forall i :: 0 <= i < |cs| ==>
      RenamedCalls(cs, m)[i] == RenamedCall(cs[i], m)
  {
    hide RenamedCall;
    if cs != [] {
      RenamedCallsAt(cs[1..], m);
    }
  }

  /** A copied program has the value of the original, if copies have the numbers of their originals. */
  lemma RenamedCallsValue(cs: seq<HCall>, m: Copies, g: Graph, c: Graph, names: Names, names1: Names)
    requires CopiedNames(m, g, c, names, names1) && Nodes(ResultsCalls(cs)) <= m.Keys
    ensures Named(names, g, ResultsCalls(cs)) && Named(names1, c, ResultsCalls(RenamedCalls(cs, m)))
    ensures CallsValue(names1, c, RenamedCalls(cs, m)) == CallsValue(names, g, cs)
  {
    hide CopiedNames, ResultsCalls, RenamedCalls, ResultsCall, RenamedCall;
    MappedNamed(ResultsCalls(cs), m, g, c, names, names1);
    ResultsCallsRenamed(cs, m);
    RenamedCallsAt(cs, m);
    var out := RenamedCalls(cs, m);
    forall i | 0 <= i < |cs|
      ensures CallsValue(names1, c, out)[i] == CallsValue(names, g, cs)[i]
    {
      CallsParts(cs, i);
      CallsParts(out, i);
      RenamedCallValue(cs[i], m, g, c, names, names1);
    }
  }

  // ---- removing a call ----

  ghost predicate Unambiguous(names: Names) {
    forall r, q :: r in names && q in names && names[r] == names[q] ==> r == q
  }

  ghost function NamesOf(names: Names, d: set<DefUse.ResultArg>): set<nat> { set r | r in d && r in names :: names[r] }

  /** Everything the results refer to is named. */
  ghost predicate RefsNamed(names: Names, g: Graph) { forall r :: r in g && g[r].v.res != null ==> g[r].v.res in names }

  lemma {:induction false} ResetValue(t: Tree, names: Names, g: Graph, d: set<DefUse.ResultArg>)
    requires Unambiguous(names) && RefsNamed(names, g) && Named(names, g, Results(t)) && d <= names.Keys
    ensures ArgValue(names, Remove(g, d), t) == ResetArg(ArgValue(names, g, t), NamesOf(names, d))
    ensures forall id :: id in Ids(ArgValue(names, g, t)) <==> id in NamesOf(names, Nodes(Results(t)))
    decreases t, 0
  {
    hide Remove;
    match t
    case Leaf(_) =>
    case Pointer(_, _, _, pointee) =>
      if pointee.Some? {
        ResetValue(pointee.value, names, g, d);
      }
    case Group(_, inner) => ResetValues(inner, names, g, d);
    case Union(_, option) => ResetValue(option, names, g, d);
    case Result(r) => ResetResult(t, names, g, d);
  }

  lemma ResetResult(t: Tree, names: Names, g: Graph, d: set<DefUse.ResultArg>)
    requires t.Result? && Unambiguous(names) && RefsNamed(names, g) && Named(names, g, Results(t)) && d <= names.Keys
    ensures ArgValue(names, Remove(g, d), t) == ResetArg(ArgValue(names, g, t), NamesOf(names, d))
    ensures forall id :: id in Ids(ArgValue(names, g, t)) <==> id in NamesOf(names, Nodes(Results(t)))
  {
    var r := t.r;
    assert r in Nodes(Results(t)) && Nodes(Results(t)) == {r};
    var q := g[r].v.res;
    if q != null {
      assert q in d <==> names[q] in NamesOf(names, d);
    }
  }

  lemma {:induction false} ResetValues(ts: seq<Tree>, names: Names, g: Graph, d: set<DefUse.ResultArg>)
    requires Unambiguous(names) && RefsNamed(names, g) && Named(names, g, ResultsSeq(ts)) && d <= names.Keys
    ensures ArgValues(names, Remove(g, d), ts) == ResetArgs(ArgValues(names, g, ts), NamesOf(names, d))
    ensures forall id :: id in IdsSeq(ArgValues(names, g, ts)) <==> id in NamesOf(names, Nodes(ResultsSeq(ts)))
    decreases ts
  {
    hide Remove, Results, Unambiguous, RefsNamed, ArgValue;
    if ts != [] {
      SplitNodes(ts);
      ResetValue(ts[0], names, g, d);
      ResetValues(ts[1..], names, g, d);
      var args := ArgValues(names, g, ts);
      assert args[0] == ArgValue(names, g, ts[0]) && args[1..] == ArgValues(names, g, ts[1..]);
    }
  }

  lemma ResetCallValue(c: HCall, names: Names, g: Graph, d: set<DefUse.ResultArg>)
    requires Unambiguous(names) && RefsNamed(names, g) && Named(names, g, ResultsCall(c)) && d <= names.Keys
    ensures CallValue(names, Remove(g, d), c) == ResetCall(CallValue(names, g, c), NamesOf(names, d))
    ensures IdSet(CallValue(names, g, c)) == NamesOf(names, Nodes(ResultsCall(c)))
  {
    hide Remove, ResultsSeq, Unambiguous, RefsNamed;
    CallParts(c);
    ResetValues(c.args, names, g, d);
    if c.ret != null {
      ResetResult(Result(c.ret), names, g, d);
      assert Nodes(Results(Result(c.ret))) == {c.ret};
    }
  }

  lemma CutCalls(cs: seq<HCall>, idx: nat)
    requires idx < |cs|
    ensures Nodes(ResultsCalls(cs[..idx] + cs[idx + 1..])) <= Nodes(ResultsCalls(cs))
  {
    hide ResultsCalls, ResultsCall;
    ProgEdits.CallAt(cs, idx);
    ProgEdits.OrderSplit(cs[..idx], cs[idx + 1..]);
    AroundNodes(ResultsCalls(cs[..idx]), ResultsCall(cs[idx]), ResultsCalls(cs[idx + 1..]));
  }

  /** Removing a call in memory gives the program without the call. */
  lemma RemovedValue(names: Names, g: Graph, cs: seq<HCall>, idx: nat)
    requires idx < |cs| && Unambiguous(names) && RefsNamed(names, g) && Named(names, g, ResultsCalls(cs))
    ensures var rest, g' := cs[..idx] + cs[idx + 1..], Remove(g, Nodes(ResultsCall(cs[idx])));
      && Named(names, g', ResultsCalls(rest))
      && CallsValue(names, g', rest) == Without(Prog(CallsValue(names, g, cs)), idx).calls
  {
    hide Remove, ResultsCalls, ResultsCall, Unambiguous, RefsNamed, ResetCall;
    var rest, d := cs[..idx] + cs[idx + 1..], Nodes(ResultsCall(cs[idx]));
    CutCalls(cs, idx);
    CallsParts(cs, idx);
    ResetCallValue(cs[idx], names, g, d);
    var whole := CallsValue(names, g, cs);
    var left, out := whole[..idx] + whole[idx + 1..], CallsValue(names, Remove(g, d), rest);
    forall j | 0 <= j < |rest|
      ensures out[j] == ResetCall(left[j], NamesOf(names, d))
    {
      var i := if j < idx then j else j + 1;
      assert rest[j] == cs[i] && left[j] == whole[i];
      CallsParts(cs, i);
      ResetCallValue(cs[i], names, g, d);
    }
  }

  // ---- the value of a program ----

  function Pos(order: seq<DefUse.ResultArg>, r: DefUse.ResultArg): (i: nat)
    requires r in order
    ensures i < |order| && order[i] == r
  {
    if order[0] == r then 0 else 1 + Pos(order[1..], r)
  }

  /** Results numbered in their order. */
  ghost function Numbered(order: seq<DefUse.ResultArg>): Names { map r | r in Nodes(order) :: Pos(order, r) }

  ghost function ValueOf(p: ProgEdits.Prog): seq<Call>
    reads p, p.Own()
  {
    CallsValue(Numbered(p.Order()), p.Links(), p.calls)
  }

  lemma NumbersCopied(order: seq<DefUse.ResultArg>, m: Copies)
    requires m.Keys == Nodes(order) && Distinct(Mapped(order, m))
    ensures SameNames(m, Numbered(order), Numbered(Mapped(order, m)))
  {
    var copy := Mapped(order, m);
    forall r | r in m
      ensures m[r] in Nodes(copy) && Pos(copy, m[r]) == Pos(order, r)
    {
      assert copy[Pos(order, r)] == m[r];
    }
  }

  /** A clone has the value of the original. */
  lemma CloneSameValue(p: ProgEdits.Prog, p1: ProgEdits.Prog, m: Copies)
    requires p1.Linked() && m.Keys == p.Own() && p1.calls == RenamedCalls(p.calls, m)
      && p1.Order() == Mapped(p.Order(), m)
    requires CopyOf(m, p.Links(), p1.Links())
    ensures ValueOf(p1) == ValueOf(p)
  {
    hide ResultsCalls, RenamedCalls, CopyOf, Mapped;
    NumbersCopied(p.Order(), m);
    RenamedCallsValue(p.calls, m, p.Links(), p1.Links(), Numbered(p.Order()), Numbered(p1.Order()));
  }

  lemma LinksNamed(p: ProgEdits.Prog, names: Names)
    requires p.Linked() && p.Own() <= names.Keys
    ensures RefsNamed(names, p.Links())
  {
    var order, g := p.Order(), p.Links();
    forall r | r in g && g[r].v.res != null
      ensures g[r].v.res in names
    {
      var i :| 0 <= i < |order| && order[i] == r;
      assert g[r].v.res in g;
    }
  }

  ghost function CopiedName(m: Copies, names: Names): (names1: Names)
    requires Injective(m) && m.Keys <= names.Keys
    ensures names1.Keys == m.Values && SameNames(m, names, names1)
  {
    map q | q in m.Values :: (var r :| r in m && m[r] == q; names[r])
  }

  lemma CopiedUnambiguous(m: Copies, names: Names)
    requires Injective(m) && m.Keys <= names.Keys && Unambiguous(names)
    ensures Unambiguous(CopiedName(m, names))
  {
    var names1 := CopiedName(m, names);
    forall q, q' | q in names1 && q' in names1 && names1[q] == names1[q']
      ensures q == q'
    {
      var r :| r in m && m[r] == q;
      var r' :| r' in m && m[r'] == q';
      assert names1[m[r]] == names[r] && names1[m[r']] == names[r'];
    }
  }

  /** A clone and numbers for its results under which it has the value of the original. */
  method CloneNamed(p: ProgEdits.Prog, ghost names: Names) returns (q: ProgEdits.Prog, ghost names1: Names)
    requires p.Valid() && p.Own() <= names.Keys && Unambiguous(names)
    ensures fresh(q) && fresh(q.Own()) && fresh(q.own) && q.Valid() && |q.calls| == |p.calls|
    ensures q.Own() == names1.Keys && Unambiguous(names1) && RefsNamed(names1, q.Links())
    ensures CallsValue(names1, q.Links(), q.calls) == CallsValue(names, p.Links(), p.calls)
  {
    hide ResultsCalls, RenamedCalls, Mapped, ProgEdits.Prog.Linked, RepCalls, CallsValue, CopyOf, Unambiguous;
    assert allocated(p.Order());
    ghost var m;
    q, m := p.Clone();
    CopyInjective(m, p.Links(), q.Links());
    names1 := CopiedName(m, names);
    CopiedUnambiguous(m, names);
    LinksNamed(q, names1);
    CloneLength(p.calls, m);
    RenamedCallsValue(p.calls, m, p.Links(), q.Links(), names, names1);
  }

  /** A trial of minimisation: in a clone one call is removed. Its value is that of the program without the
      call, and the original is as before. */
  method TryWithout(p: ProgEdits.Prog, idx: nat, ghost names: Names) returns (q: ProgEdits.Prog, ghost names1: Names)
    requires p.Valid() && idx < |p.calls| && p.Own() <= names.Keys && Unambiguous(names)
    ensures p.Valid() && ValueOf(p) == old(ValueOf(p))
    ensures fresh(q) && q.Valid() && q.Own() <= names1.Keys && Unambiguous(names1)
    ensures CallsValue(names1, q.Links(), q.calls) ==
      Without(Prog(old(CallsValue(names, p.Links(), p.calls))), idx).calls
  {
    hide ResultsCalls, ProgEdits.Prog.Linked, RepCalls, Remove, Without, CallsValue, ValueOf, Unambiguous, ResultsCall;
    assert allocated(p.Order());
    q, names1 := CloneNamed(p, names);
    ghost var g, cs := q.Links(), q.calls;
    RemovedValue(names1, g, cs, idx);
    q.RemoveCall(idx);
    SameLinksValue(names1, Remove(g, Nodes(ResultsCall(cs[idx]))), q.Links(), q.calls);
    Isolation(p);
  }

  lemma CopyInjective(m: Copies, g: Graph, c: Graph)
    requires CopyOf(m, g, c)
    ensures Injective(m)
  {
  }

  lemma CloneLength(cs: seq<HCall>, m: Copies)
    ensures |RenamedCalls(cs, m)| == |cs|
  {
    RenamedCallsAt(cs, m);
  }

  /** The value depends only on the program's own results. */
  lemma SameLinksValue(names: Names, g: Graph, g1: Graph, cs: seq<HCall>)
    requires Named(names, g, ResultsCalls(cs)) && g1.Keys == Nodes(ResultsCalls(cs)) && forall r :: r in g1 ==>
      g[r] == g1[r]
    ensures Named(names, g1, ResultsCalls(cs)) && CallsValue(names, g1, cs) == CallsValue(names, g, cs)
  {
    hide ResultsCalls, ResultsCall, CallValue;
    forall i | 0 <= i < |cs|
      ensures CallsValue(names, g1, cs)[i] == CallsValue(names, g, cs)[i]
    {
      CallsParts(cs, i);
      SameLinksCall(names, g, g1, cs[i]);
    }
  }

  lemma SameLinksCall(names: Names, g: Graph, g1: Graph, c: HCall)
    requires Named(names, g, ResultsCall(c)) && Named(names, g1, ResultsCall(c)) && SameOn(g, g1, ResultsCall(c))
    ensures CallValue(names, g1, c) == CallValue(names, g, c)
  {
    CallParts(c);
    SameLinksSeq(names, g, g1, c.args);
  }

  ghost predicate SameOn(g: Graph, g1: Graph, rs: seq<DefUse.ResultArg>) {
    forall r :: r in Nodes(rs) && r in g && r in g1 ==> g[r] == g1[r]
  }

  lemma {:induction false} SameLinksTree(names: Names, g: Graph, g1: Graph, t: Tree)
    requires Named(names, g, Results(t)) && Named(names, g1, Results(t)) && SameOn(g, g1, Results(t))
    ensures ArgValue(names, g1, t) == ArgValue(names, g, t)
    decreases t, 0
  {
    match t
    case Pointer(_, _, _, pointee) =>
      if pointee.Some? {
        SameLinksTree(names, g, g1, pointee.value);
      }
    case Group(_, inner) => SameLinksSeq(names, g, g1, inner);
    case Union(_, option) => SameLinksTree(names, g, g1, option);
    case Result(r) => assert r in Nodes(Results(t));
    case _ =>
  }

  lemma {:induction false} SameLinksSeq(names: Names, g: Graph, g1: Graph, ts: seq<Tree>)
    requires Named(names, g, ResultsSeq(ts)) && Named(names, g1, ResultsSeq(ts)) && SameOn(g, g1, ResultsSeq(ts))
    ensures ArgValues(names, g1, ts) == ArgValues(names, g, ts)
    decreases ts
  {
    if ts != [] {
      SplitNodes(ts);
      SameLinksTree(names, g, g1, ts[0]);
      SameLinksSeq(names, g, g1, ts[1..]);
    }
  }

  // ---- edits of a clone ----

  datatype Edit =
    | DropCall(idx: nat)
    | CutTo(ncalls: nat)
    | Write(at: Place, data: seq<char>)
    | Move(at: Place, address: u64)
    | Special(at: Place, address: u64)
    | Regenerate(at: Place, val: u64)
    | Graft(idx: nat)

  /** Nothing of one program belongs to the other. */
  ghost predicate Separate(p: ProgEdits.Prog, donor: ProgEdits.Prog)
    reads p, donor
  {
    p != donor && p.Own() !! donor.Own() && p.own !! donor.own
  }

  /** One edit, if it applies: a call is removed, the program is cut, bytes are overwritten, a pointer is
      moved or made special, a constant is regenerated, or a clone of another program is inserted. */
  method Apply(p: ProgEdits.Prog, e: Edit, donor: ProgEdits.Prog)
    requires p.Valid() && donor.Valid() && Separate(p, donor)
    modifies p, p.Own(), p.own
    ensures p.Valid() && fresh(p.own - old(p.own)) && forall r :: r in p.Own() ==> r in old(p.Own()) || fresh(r)
  {
    hide ProgEdits.Prog.Linked, RepCalls, ResultsCalls, TreeAt, HasPlace, RenamedCalls, Redirected;
    assert allocated(p.Order());
    match e
    case DropCall(idx) =>
      if idx < |p.nodes| {
        p.RemoveCall(idx);
      }
    case CutTo(ncalls) => p.Truncate(ncalls);
    case Write(at, data) =>
      var kind := KindAt(p, at);
      if kind == 1 {
        p.WriteData(at, data);
      }
    case Move(at, address) =>
      var kind := KindAt(p, at);
      if kind == 2 {
        p.SetAddress(at, address);
      }
    case Special(at, address) =>
      var kind := KindAt(p, at);
      if kind == 2 {
        p.MakeSpecial(at, address);
      }
    case Regenerate(at, val) =>
      var kind := KindAt(p, at);
      if kind == 3 {
        p.RegenerateConst(at, val);
      }
    case Graft(idx) =>
      if idx < |p.nodes| {
        ghost var m := p.InsertClone(donor, idx);
      }
  }

  /** What stands at a place: data (1), a pointer (2), a constant (3), or none of them. */
  method KindAt(p: ProgEdits.Prog, at: Place) returns (kind: nat)
    requires p.Shaped()
    ensures kind == 1 ==> HasPlace(p.calls, at) && TreeAt(p.calls, at).Leaf? && TreeAt(p.calls, at).arg.DataArg?
    ensures kind == 2 ==> HasPlace(p.calls, at) && TreeAt(p.calls, at).Pointer?
    ensures kind == 3 ==> HasPlace(p.calls, at) && TreeAt(p.calls, at).Leaf? && TreeAt(p.calls, at).arg.ConstArg?
  {
    hide RepCalls, RefIn, TreeAt, HasPlace;
    ghost var h := Shape(p.own);
    kind := 0;
    var q := ProbeIn(p.nodes, at, p.calls, h);
    if q.Some? && q.value.Plain? {
      PlaceRep(h, p.nodes, p.calls, at);
      assert q.value.n.v == h[q.value.n];
      kind := if q.value.n.v.NData? then 1 else if q.value.n.v.NPointer? then 2 else if q.value.n.v.NConst? then 3
        else 0;
    }
  }

  method ApplyAll(p: ProgEdits.Prog, es: seq<Edit>, donor: ProgEdits.Prog)
    requires p.Valid() && donor.Valid() && Separate(p, donor)
    modifies p, p.Own(), p.own
    ensures p.Valid() && fresh(p.own - old(p.own)) && forall r :: r in p.Own() ==> r in old(p.Own()) || fresh(r)
  {
    hide ProgEdits.Prog.Linked, RepCalls, ResultsCalls;
    assert allocated(donor.Order());
    for i := 0 to |es|
      invariant p.Valid() && donor.Valid() && Separate(p, donor)
      invariant fresh(p.own - old(p.own)) && forall r :: r in p.Own() ==> r in old(p.Own()) || fresh(r)
    {
      ghost var rs, ns := p.Own(), p.own;
      label before:
      Apply(p, es[i], donor);
      assert forall r :: r in p.Own() && r !in rs ==> !old@before(allocated(r));
      assert forall n :: n in p.own - old(p.own) ==> n in ns - old(p.own) || n in p.own - ns;
    }
  }

  /** Whatever is done to a clone, and however often, the original keeps its value and its nodes; it may even
      be spliced into its own clone. */
  method EditClone(p: ProgEdits.Prog, es: seq<Edit>) returns (p1: ProgEdits.Prog)
    requires p.Valid()
    ensures p.Valid() && ValueOf(p) == old(ValueOf(p)) && p.calls == old(p.calls) && Shape(p.own) == old(Shape(p.own))
    ensures fresh(p1) && p1.Valid()
  {
    hide ProgEdits.Prog.Linked, RepCalls, ResultsCalls, CallsValue, RenamedCalls, CopyOf, Mapped, ValueOf, Shape, Snap;
    assert allocated(p.Order());
    ghost var m;
    p1, m := p.Clone();
    ApplyAll(p1, es, p);
    Isolation(p);
  }

  /** More generally: a change of memory that leaves alone the program and its nodes leaves its value. */
  twostate lemma Isolation(p: ProgEdits.Prog)
    requires old(allocated(p.Order())) && old(allocated(p.own))
    requires old(p.Valid()) && unchanged(p) && unchanged(old(p.Own())) && unchanged(old(p.own))
    ensures p.Valid() && ValueOf(p) == old(ValueOf(p)) && Shape(p.own) == old(Shape(p.own))
  {
    hide ResultsCalls, CallsValue, RepCalls, Inv, ProgEdits.RetsEmpty;
    assert p.Links() == old(p.Links());
    assert Shape(p.own) == old(Shape(p.own));
  }
}
