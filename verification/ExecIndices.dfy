/** The compiler gives every used result the index it is meant to have: indices count the used
    results of the program in order, and every reference to an earlier call carries the index that
    call assigned. */
module ExecIndices {
  import opened ProgTypes
  import opened Validation
  import opened ExecFormat
  import opened ExecCompile
  import opened CanonicalForm

  lemma DistinctSplit(a: seq<nat>, b: seq<nat>)
    requires Distinct(a + b)
    ensures Distinct(a) && Distinct(b) && ToSet(a) !! ToSet(b)
  {
    assert forall i :: 0 <= i < |a| ==> (a + b)[i] == a[i];
    assert forall i :: 0 <= i < |b| ==> (a + b)[|a| + i] == b[i];
  }

  /** The results that visited arguments refer to. */
  ghost function VisitRefs(vs: seq<Visit>): set<nat> {
    set v | v in vs && v.arg.ResultArg? && v.arg.ref.Some? :: v.arg.ref.value
  }

  /** The known index of each of these references is the meant one. */
  ghost predicate Agree(infos: Infos, ix: Numbering, refs: set<nat>) {
    forall r :: r in refs ==> r in infos && r in ix && infos[r].idx == ix[r]
  }

  /** The infos differ at most at the results in ds. */
  ghost predicate SameOutside(infos: Infos, infos1: Infos, ds: set<nat>) {
    forall r :: r !in ds ==> (r in infos <==> r in infos1) && (r in infos ==> infos1[r] == infos[r])
  }

  /** Used results of vs have been located, and those outside memory have no info yet. */
  ghost predicate Placed(used: set<nat>, infos: Infos, vs: seq<Visit>) {
    forall i :: 0 <= i < |vs| && Used(used, vs[i].arg) ==>
      if vs[i].addr.Some? then vs[i].arg.id in infos && infos[vs[i].arg.id] == Info(vs[i].addr.value, 0, false)
      else vs[i].arg.id !in infos
  }

  lemma {:induction false} DefinersIn(used: set<nat>, vs: seq<Visit>, i: nat)
    requires i < |vs| && Used(used, vs[i].arg)
    ensures vs[i].arg.id in Definers(used, vs)
  {
    if i > 0 {
      DefinersIn(used, vs[1..], i - 1);
    }
  }

  lemma HeadDefiners(used: set<nat>, vs: seq<Visit>)
    requires vs != [] && Distinct(Definers(used, vs))
    ensures Distinct(Definers(used, vs[1..]))
    ensures Used(used, vs[0].arg) ==> vs[0].arg.id !in ToSet(Definers(used, vs[1..]))
    ensures ToSet(Definers(used, vs)) == ToSet(Definers(used, vs[1..])) + if Used(used, vs[0].arg) then {vs[0].arg.id}
      else {}
  {
    var head := if Used(used, vs[0].arg) then [vs[0].arg.id] else [];
    DistinctSplit(head, Definers(used, vs[1..]));
    if Used(used, vs[0].arg) {
      assert head[0] in ToSet(head);
    }
  }

  lemma {:induction false} CopyinsFrame(tgt: Target, used: set<nat>, infos: Infos, vs: seq<Visit>)
    requires WritableVisits(tgt, vs) && Distinct(Definers(used, vs)) && infos.Keys !! ToSet(Definers(used, vs))
    ensures SameOutside(infos, Copyins(tgt, used, infos, vs).1, ToSet(Definers(used, vs)))
    ensures Placed(used, Copyins(tgt, used, infos, vs).1, vs)
    decreases vs
  {
    hide ArgOf;
    if vs != [] {
      HeadDefiners(used, vs);
      var infos0 := Located(used, infos, vs[0]);
      CopyinsFrame(tgt, used, infos0, vs[1..]);
      var infos1 := Copyins(tgt, used, infos0, vs[1..]).1;
      forall i | 0 <= i < |vs| && Used(used, vs[i].arg)
        ensures if vs[i].addr.Some? then vs[i].arg.id in infos1
          && infos1[vs[i].arg.id] == Info(vs[i].addr.value, 0, false)
                else vs[i].arg.id !in infos1
      {
        if i > 0 {
          assert vs[i] == vs[1..][i - 1];
        }
      }
    }
  }

  /** Every copyin carries the meant index. */
  lemma {:induction false} CopyinsMeant(tgt: Target, used: set<nat>, infos: Infos, vs: seq<Visit>, ix: Numbering)
    requires WritableVisits(tgt, vs) && Agree(infos, ix, VisitRefs(vs)) && VisitRefs(vs) !! ToSet(Definers(used, vs))
    ensures Copyins(tgt, used, infos, vs).0 == MeantCopyins(tgt, ix, vs)
    decreases vs
  {
    hide ArgOf;
    if vs != [] {
      var v, infos0 := vs[0], Located(used, infos, vs[0]);
      assert ToSet(Definers(used, vs)) >= ToSet(Definers(used, vs[1..]));
      assert VisitRefs(vs[1..]) <= VisitRefs(vs);
      if Used(used, v.arg) {
        DefinersIn(used, vs, 0);
      }
      assert Agree(infos0, ix, VisitRefs(vs));
      if EmitsCopyin(tgt, v) && RefOf(v.arg).Some? {
        assert v.arg.ref.value in VisitRefs(vs);
      }
      CopyinsMeant(tgt, used, infos0, vs[1..], ix);
    }
  }

  /** The used results are numbered from k on. */
  ghost predicate NumberedFrom(ix: Numbering, ds: seq<nat>, k: nat) {
    forall j :: 0 <= j < |ds| ==> ds[j] in ix && ix[ds[j]] == k + j
  }

  ghost predicate KnownFrom(infos: Infos, ds: seq<nat>, k: nat) {
    forall j :: 0 <= j < |ds| ==> ds[j] in infos && infos[ds[j]].idx == k + j
  }

  /** Copyouts carry consecutive indices and the addresses found on the way in. */
  lemma {:induction false} CopyoutsMeant(tgt: Target, used: set<nat>, infos: Infos, k: nat, vs: seq<Visit>,
                                         ix: Numbering)
    requires Placed(used, infos, vs) && Distinct(Definers(used, vs))
    requires NumberedFrom(ix, Definers(used, vs), k) && k + |Definers(used, vs)| < TWO64
    ensures var (couts, infos1, k1) := Copyouts(tgt, used, infos, k, vs);
      && couts == MeantCopyouts(tgt, used, ix, vs) && k1 == k + |Definers(used, vs)|
      && KnownFrom(infos1, Definers(used, vs), k)
      && SameOutside(infos, infos1, ToSet(Definers(used, vs)))
    decreases vs
  {
    hide Size, Placed, Distinct, NumberedFrom, KnownFrom, SameOutside, ToSet;
    if vs == [] {
      NothingKnown(infos, k);
    } else {
      var a, rest := vs[0].arg, Definers(used, vs[1..]);
      HeadDefiners(used, vs);
      if !Used(used, a) {
        assert Definers(used, vs) == rest;
        PlacedTail(used, infos, vs);
        CopyoutsMeant(tgt, used, infos, k, vs[1..], ix);
      } else {
        PlacedHead(used, infos, vs);
        var info := if a.id in infos then infos[a.id] else Info(0, 0, false);
        var infos0 := infos[a.id := info.(idx := Wrap64(k))];
        UpdateOutside(infos, a.id, infos0[a.id]);
        PlacedRest(used, infos, infos0, vs);
        assert Definers(used, vs) == [a.id] + rest;
        NumberedCons(ix, a.id, rest, k);
        CopyoutsMeant(tgt, used, infos0, k + 1, vs[1..], ix);
        KnownCons(infos, infos0, Copyouts(tgt, used, infos0, k + 1, vs[1..]).1, a.id, rest, k);
      }
    }
  }

  lemma NothingKnown(infos: Infos, k: nat)
    ensures KnownFrom(infos, [], k) && SameOutside(infos, infos, ToSet([]))
  {
  }

  lemma PlacedTail(used: set<nat>, infos: Infos, vs: seq<Visit>)
    requires vs != [] && Placed(used, infos, vs)
    ensures Placed(used, infos, vs[1..])
  {
  }

  lemma PlacedHead(used: set<nat>, infos: Infos, vs: seq<Visit>)
    requires vs != [] && Placed(used, infos, vs) && Used(used, vs[0].arg)
    ensures var id := vs[0].arg.id;
      if vs[0].addr.Some? then id in infos && infos[id] == Info(vs[0].addr.value, 0, false) else id !in infos
  {
  }

  lemma UpdateOutside(infos: Infos, id: nat, info: Info)
    ensures SameOutside(infos, infos[id := info], {id})
  {
  }

  lemma NumberedCons(ix: Numbering, id: nat, rest: seq<nat>, k: nat)
    requires NumberedFrom(ix, [id] + rest, k)
    ensures NumberedFrom(ix, rest, k + 1) && id in ix && ix[id] == k
  {
    var ds := [id] + rest;
    assert ds[0] == id;
    assert forall j :: 0 <= j < |rest| ==> rest[j] == ds[j + 1];
  }

  lemma KnownCons(infos: Infos, infos0: Infos, infos1: Infos, id: nat, rest: seq<nat>, k: nat)
    requires SameOutside(infos, infos0, {id}) && id in infos0 && infos0[id].idx == k
    requires SameOutside(infos0, infos1, ToSet(rest)) && KnownFrom(infos1, rest, k + 1) && id !in ToSet(rest)
    ensures KnownFrom(infos1, [id] + rest, k) && SameOutside(infos, infos1, ToSet([id] + rest))
  {
    assert ToSet([id] + rest) == ToSet(rest) + {id};
  }

  lemma PlacedRest(used: set<nat>, infos: Infos, infos0: Infos, vs: seq<Visit>)
    requires vs != [] && Used(used, vs[0].arg) && Placed(used, infos, vs) && Distinct(Definers(used, vs))
    requires SameOutside(infos, infos0, {vs[0].arg.id})
    ensures Placed(used, infos0, vs[1..])
  {
    HeadDefiners(used, vs);
    forall i | 0 <= i < |vs| - 1 && Used(used, vs[1..][i].arg)
      ensures vs[1..][i].arg.id != vs[0].arg.id && vs[1..][i] == vs[i + 1]
    {
      DefinersIn(used, vs[1..], i);
    }
  }

  // ---- calls ----

  function ArgVisits(tgt: Target, c: Call): seq<Visit> { VisitsSeq(tgt, c.args, None, 0) }

  /** The return value is visited first and is not in memory. */
  lemma RetFirst(tgt: Target, used: set<nat>, c: Call)
    requires WritableCall(tgt, c)
    ensures CallVisits(tgt, c) == (if c.ret.Some? then [Visit(c.ret.value, None)] else []) + ArgVisits(tgt, c)
    ensures Definers(used, CallVisits(tgt, c)) ==
      (if RetUsed(used, c) then [c.ret.value.id] else []) + Definers(used, ArgVisits(tgt, c))
  {
    if c.ret.Some? {
      var vs := CallVisits(tgt, c);
      assert vs[0] == Visit(c.ret.value, None) && vs[1..] == ArgVisits(tgt, c);
    } else {
      assert CallVisits(tgt, c) == ArgVisits(tgt, c);
    }
  }

  /** References of whole arguments are among the visited ones. */
  lemma {:induction false} RefVisited(tgt: Target, a: Arg, base: Option<u64>, off: nat)
    requires RefOf(a).Some?
    ensures RefOf(a).value in VisitRefs(Visits(tgt, a, base, off))
    decreases a
  {
    var vs := Visits(tgt, a, base, off);
    assert vs[0].arg == a;
    if a.UnionArg? {
      RefVisited(tgt, a.option, base, off);
      var v :| v in Visits(tgt, a.option, base, off) && v.arg.ResultArg? && v.arg.ref.Some?
        && v.arg.ref.value == RefOf(a).value;
      assert v in vs;
    }
  }

  lemma {:induction false} ArgRefVisited(tgt: Target, args: seq<Arg>, base: Option<u64>, off: nat, i: nat)
    requires i < |args| && RefOf(args[i]).Some?
    ensures RefOf(args[i]).value in VisitRefs(VisitsSeq(tgt, args, base, off))
    decreases i
  {
    var first, rest := Visits(tgt, args[0], base, off), VisitsSeq(tgt, args[1..], base, Advance(tgt, args[0], off));
    if i == 0 {
      RefVisited(tgt, args[0], base, off);
    } else {
      ArgRefVisited(tgt, args[1..], base, Advance(tgt, args[0], off), i - 1);
    }
    assert VisitRefs(first + rest) == VisitRefs(first) + VisitRefs(rest);
  }

  lemma CallArgsMeant(tgt: Target, infos: Infos, c: Call, ix: Numbering)
    requires WritableCall(tgt, c) && Agree(infos, ix, VisitRefs(ArgVisits(tgt, c)))
    ensures CallArgs(tgt, infos, c.args) ==
      seq(|c.args|, i requires 0 <= i < |c.args| => ArgOf(tgt, NumberOf(ix, RefOf(c.args[i])), c.args[i]))
  {
    hide ArgOf;
    forall i | 0 <= i < |c.args| && RefOf(c.args[i]).Some?
      ensures KnownIndex(infos, RefOf(c.args[i])) == NumberOf(ix, RefOf(c.args[i]))
    {
      ArgRefVisited(tgt, c.args, None, 0, i);
    }
  }

  lemma CopyoutsSkipRet(tgt: Target, used: set<nat>, infos: Infos, k: nat, c: Call)
    requires WritableCall(tgt, c) && (RetUsed(used, c) ==> c.ret.value.id in infos && infos[c.ret.value.id].ret)
    ensures Copyouts(tgt, used, infos, k, CallVisits(tgt, c)) == Copyouts(tgt, used, infos, k, ArgVisits(tgt, c))
  {
    RetFirst(tgt, used, c);
    if c.ret.Some? {
      assert CallVisits(tgt, c)[1..] == ArgVisits(tgt, c);
    } else {
      assert CallVisits(tgt, c) == ArgVisits(tgt, c);
    }
  }

  /** What holds before a call is compiled. */
  ghost predicate CallReady(tgt: Target, used: set<nat>, infos: Infos, k: nat, c: Call, ix: Numbering) {
    var vs := CallVisits(tgt, c);
    var ds := Definers(used, vs);
    && WritableCall(tgt, c) && Distinct(ds) && infos.Keys !! ToSet(ds)
    && Agree(infos, ix, VisitRefs(vs)) && VisitRefs(vs) !! ToSet(ds)
    && NumberedFrom(ix, ds, k) && k + |ds| < TWO64
  }

  lemma CallMeant(tgt: Target, used: set<nat>, infos: Infos, k: nat, c: Call, csums: seq<Copyin>, ix: Numbering)
    requires CallReady(tgt, used, infos, k, c, ix)
    ensures var (call, infos1, k1) := CompileCall(tgt, used, infos, k, c, csums);
      var ds := Definers(used, CallVisits(tgt, c));
      && call == MeantCall(tgt, used, ix, c, csums) && k1 == k + |ds|
      && KnownFrom(infos1, ds, k) && SameOutside(infos, infos1, ToSet(ds))
  {
    hide ArgOf, CallVisits, VisitsSeq, Copyins, MeantCopyins, Copyouts, MeantCopyouts, Placed, Distinct, SameOutside,
      KnownFrom, CallArgs;
    var vs, av := CallVisits(tgt, c), ArgVisits(tgt, c);
    RetFirst(tgt, used, c);
    CopyinsFrame(tgt, used, infos, vs);
    CopyinsMeant(tgt, used, infos, vs, ix);
    var infos1 := Copyins(tgt, used, infos, vs).1;
    AgreeOutside(infos, infos1, ix, VisitRefs(vs), ToSet(Definers(used, vs)));
    RefsOfArgs(tgt, c);
    if RetUsed(used, c) {
      assert vs[0] == Visit(c.ret.value, None) && vs[1..] == av;
      var id := c.ret.value.id;
      HeadDefiners(used, vs);
      var infos2 := infos1[id := Info(0, Wrap64(k), true)];
      UpdateOutside(infos1, id, infos2[id]);
      PlacedRest(used, infos1, infos2, vs);
      NumberedCons(ix, id, Definers(used, av), k);
      DefinersIn(used, vs, 0);
      assert id in ToSet(Definers(used, vs));
      AgreeOutside(infos1, infos2, ix, VisitRefs(vs), {id});
      CallArgsMeant(tgt, infos2, c, ix);
      CopyoutsSkipRet(tgt, used, infos2, k + 1, c);
      CopyoutsMeant(tgt, used, infos2, k + 1, av, ix);
      KnownRet(infos, infos1, infos2, Copyouts(tgt, used, infos2, k + 1, av).1, id, Definers(used, av), k);
    } else {
      assert Definers(used, vs) == Definers(used, av);
      PlacedArgs(tgt, used, infos1, c);
      CallArgsMeant(tgt, infos1, c, ix);
      CopyoutsSkipRet(tgt, used, infos1, k, c);
      CopyoutsMeant(tgt, used, infos1, k, av, ix);
      OutsideTwice(infos, infos1, Copyouts(tgt, used, infos1, k, av).1, ToSet(Definers(used, vs)));
    }
  }

  lemma RefsOfArgs(tgt: Target, c: Call)
    requires WritableCall(tgt, c)
    ensures VisitRefs(ArgVisits(tgt, c)) <= VisitRefs(CallVisits(tgt, c))
  {
    RetFirst(tgt, {}, c);
  }

  lemma PlacedArgs(tgt: Target, used: set<nat>, infos: Infos, c: Call)
    requires WritableCall(tgt, c) && Placed(used, infos, CallVisits(tgt, c))
    ensures Placed(used, infos, ArgVisits(tgt, c))
  {
    RetFirst(tgt, used, c);
    if c.ret.Some? {
      PlacedTail(used, infos, CallVisits(tgt, c));
      assert CallVisits(tgt, c)[1..] == ArgVisits(tgt, c);
    } else {
      assert CallVisits(tgt, c) == ArgVisits(tgt, c);
    }
  }

  lemma AgreeOutside(infos: Infos, infos1: Infos, ix: Numbering, refs: set<nat>, ds: set<nat>)
    requires Agree(infos, ix, refs) && SameOutside(infos, infos1, ds) && refs !! ds
    ensures Agree(infos1, ix, refs)
  {
  }

  lemma OutsideTwice(infos: Infos, infos1: Infos, infos2: Infos, ds: set<nat>)
    requires SameOutside(infos, infos1, ds) && SameOutside(infos1, infos2, ds)
    ensures SameOutside(infos, infos2, ds)
  {
  }

  lemma KnownRet(infos: Infos, infos1: Infos, infos2: Infos, infos3: Infos, id: nat, rest: seq<nat>, k: nat)
    requires SameOutside(infos, infos1, ToSet([id] + rest)) && SameOutside(infos1, infos2, {id}) && id in infos2
      && infos2[id].idx == k
    requires SameOutside(infos2, infos3, ToSet(rest)) && KnownFrom(infos3, rest, k + 1) && id !in ToSet(rest)
    ensures KnownFrom(infos3, [id] + rest, k) && SameOutside(infos, infos3, ToSet([id] + rest))
  {
    KnownCons(infos1, infos2, infos3, id, rest, k);
    OutsideTwice(infos, infos1, infos3, ToSet([id] + rest));
  }

  // ---- programs ----

  /** Every call can be written and refers only to used results of earlier calls; `done` are the used
      results before. */
  ghost predicate RefersBack(tgt: Target, used: set<nat>, cs: seq<Call>, done: set<nat>) {
    cs == [] || (
      && WritableCall(tgt, cs[0]) && VisitRefs(CallVisits(tgt, cs[0])) <= done
      && RefersBack(tgt, used, cs[1..], done + ToSet(Definers(used, CallVisits(tgt, cs[0])))))
  }

  lemma {:induction false} RefersBackWritable(tgt: Target, used: set<nat>, cs: seq<Call>, done: set<nat>)
    requires RefersBack(tgt, used, cs, done)
    ensures forall i :: 0 <= i < |cs| ==> WritableCall(tgt, cs[i])
  {
    if cs != [] {
      RefersBackWritable(tgt, used, cs[1..], done + ToSet(Definers(used, CallVisits(tgt, cs[0]))));
    }
  }

  lemma Split3(done: seq<nat>, ds: seq<nat>, rest: seq<nat>)
    requires Distinct(done + (ds + rest))
    ensures Distinct(ds) && ToSet(done) !! ToSet(ds) && done + (ds + rest) == done + ds + rest
  {
    DistinctSplit(done, ds + rest);
    DistinctSplit(ds, rest);
  }

  /** The compiler's state after some calls: exactly their used results are known, in order. */
  ghost predicate Knows(infos: Infos, done: seq<nat>) {
    infos.Keys == ToSet(done) && KnownFrom(infos, done, 0)
  }

  lemma NextCallReady(tgt: Target, used: set<nat>, infos: Infos, done: seq<nat>, cs: seq<Call>, ix: Numbering)
    requires cs != [] && RefersBack(tgt, used, cs, ToSet(done)) && Knows(infos, done)
    requires var all := done + AllDefiners(tgt, used, cs); Distinct(all) && NumberedFrom(ix, all, 0) && |all| < TWO64
    ensures CallReady(tgt, used, infos, |done|, cs[0], ix)
  {
    hide CallVisits, WritableCall;
    var ds, rest := Definers(used, CallVisits(tgt, cs[0])), AllDefiners(tgt, used, cs[1..]);
    var all := done + (ds + rest);
    Split3(done, ds, rest);
    forall r | r in ToSet(done)
      ensures r in infos && r in ix && infos[r].idx == ix[r]
    {
      var j :| 0 <= j < |done| && done[j] == r;
      assert all[j] == r;
    }
    forall j | 0 <= j < |ds|
      ensures ds[j] in ix && ix[ds[j]] == |done| + j
    {
      assert all[|done| + j] == ds[j];
    }
  }

  lemma KnowsMore(infos: Infos, infos1: Infos, done: seq<nat>, ds: seq<nat>)
    requires Knows(infos, done) && KnownFrom(infos1, ds, |done|) && SameOutside(infos, infos1, ToSet(ds))
      && ToSet(done) !! ToSet(ds)
    ensures Knows(infos1, done + ds)
  {
    assert ToSet(done + ds) == ToSet(done) + ToSet(ds);
    forall r | r in ToSet(ds)
      ensures r in infos1
    {
      var j :| 0 <= j < |ds| && ds[j] == r;
    }
    forall r | r in infos1
      ensures r in ToSet(done) + ToSet(ds)
    {
      assert r !in ToSet(ds) ==> r in infos;
    }
    forall j | 0 <= j < |done|
      ensures done[j] in infos1 && infos1[done[j]].idx == j
    {
      assert done[j] in ToSet(done);
    }
  }

  /** The compiled program is the meant one: the compiler's running counter and lookups give every
      used result its place in the order of all used results. */
  lemma {:induction false} CallsMeant(tgt: Target, used: set<nat>, infos: Infos, done: seq<nat>, cs: seq<Call>,
                                      csums: seq<seq<Copyin>>, ix: Numbering)
    requires |csums| == |cs| && RefersBack(tgt, used, cs, ToSet(done)) && Knows(infos, done)
    requires var all := done + AllDefiners(tgt, used, cs); Distinct(all) && NumberedFrom(ix, all, 0) && |all| < TWO64
    ensures forall i :: 0 <= i < |cs| ==> WritableCall(tgt, cs[i])
    ensures CompileCalls(tgt, used, infos, |done|, cs, csums) == MeantCalls(tgt, used, ix, cs, csums)
    decreases cs
  {
    hide CompileCall, MeantCall, Distinct, NumberedFrom, KnownFrom, SameOutside, CallReady, WritableCall, CallVisits,
      Knows;
    RefersBackWritable(tgt, used, cs, ToSet(done));
    if cs != [] {
      NextCallReady(tgt, used, infos, done, cs, ix);
      CallMeant(tgt, used, infos, |done|, cs[0], csums[0], ix);
      var ds := Definers(used, CallVisits(tgt, cs[0]));
      var infos1 := CompileCall(tgt, used, infos, |done|, cs[0], csums[0]).1;
      Split3(done, ds, AllDefiners(tgt, used, cs[1..]));
      KnowsMore(infos, infos1, done, ds);
      assert ToSet(done + ds) == ToSet(done) + ToSet(ds);
      CallsMeant(tgt, used, infos1, done + ds, cs[1..], csums[1..], ix);
    }
  }

  /** Numbers the results of a list from k on. */
  function PositionsFrom(ds: seq<nat>, k: nat): (ix: Numbering)
    requires k + |ds| < TWO64
    ensures forall r :: r in ix ==> k <= ix[r] < k + |ds|
  {
    if ds == [] then map[] else PositionsFrom(ds[1..], k + 1)[ds[0] := k]
  }

  function Positions(ds: seq<nat>): Numbering
    requires |ds| < TWO64
  {
    PositionsFrom(ds, 0)
  }

  lemma {:induction false} PositionsNumber(ds: seq<nat>, k: nat)
    requires k + |ds| < TWO64 && Distinct(ds)
    ensures NumberedFrom(PositionsFrom(ds, k), ds, k)
  {
    if ds != [] {
      PositionsNumber(ds[1..], k + 1);
      var ix, ix1 := PositionsFrom(ds, k), PositionsFrom(ds[1..], k + 1);
      forall j | 0 <= j < |ds|
        ensures ds[j] in ix && ix[ds[j]] == k + j
      {
        if j > 0 {
          assert ds[1..][j - 1] == ds[j];
        }
      }
    }
  }

  function Compiled(tgt: Target, used: set<nat>, cs: seq<Call>, csums: seq<seq<Copyin>>): seq<ExecCall>
    requires |csums| == |cs| && forall i :: 0 <= i < |cs| ==> WritableCall(tgt, cs[i])
  {
    CompileCalls(tgt, used, map[], 0, cs, csums)
  }

  /** Programs whose references all point to earlier calls, with distinct results. */
  ghost predicate Compilable(tgt: Target, used: set<nat>, cs: seq<Call>) {
    var ds := AllDefiners(tgt, used, cs);
    RefersBack(tgt, used, cs, {}) && Distinct(ds) && |ds| < NO_COPYOUT
  }

  lemma CompiledMeant(tgt: Target, used: set<nat>, cs: seq<Call>, csums: seq<seq<Copyin>>)
    requires |csums| == |cs| && Compilable(tgt, used, cs)
    ensures forall i :: 0 <= i < |cs| ==> WritableCall(tgt, cs[i])
    ensures Compiled(tgt, used, cs, csums) == MeantCalls(tgt, used, Positions(AllDefiners(tgt, used, cs)), cs, csums)
  {
    var ds := AllDefiners(tgt, used, cs);
    PositionsNumber(ds, 0);
    assert [] + ds == ds && ToSet([]) == {};
    CallsMeant(tgt, used, map[], [], cs, csums, Positions(ds));
  }

  // ---- the indices a program assigns ----

  function CopyoutIndices(cs: seq<Copyout>): (r: seq<u64>)
    ensures |r| == |cs|
  {
    if cs == [] then [] else [cs[0].index] + CopyoutIndices(cs[1..])
  }

  /** The indices assigned by a stream, in order of the instructions. */
  function Assigned(cs: seq<ExecCall>): seq<u64> {
    if cs == [] then []
    else (if cs[0].index != NO_COPYOUT then [cs[0].index] else []) + CopyoutIndices(cs[0].copyout) + Assigned(cs[1..])
  }

  function Numbers(ix: Numbering, ds: seq<nat>): (r: seq<u64>)
    ensures |r| == |ds|
  {
    seq(|ds|, j requires 0 <= j < |ds| => NumberOf(ix, Some(ds[j])))
  }

  lemma NumbersSplit(ix: Numbering, a: seq<nat>, b: seq<nat>)
    ensures Numbers(ix, a + b) == Numbers(ix, a) + Numbers(ix, b)
  {
  }

  lemma {:induction false} MeantCopyoutIndices(tgt: Target, used: set<nat>, ix: Numbering, vs: seq<Visit>)
    ensures CopyoutIndices(MeantCopyouts(tgt, used, ix, vs)) == Numbers(ix, Definers(used, vs))
    decreases vs
  {
    hide Size;
    if vs != [] {
      MeantCopyoutIndices(tgt, used, ix, vs[1..]);
      if Used(used, vs[0].arg) {
        NumbersSplit(ix, [vs[0].arg.id], Definers(used, vs[1..]));
        var outs := MeantCopyouts(tgt, used, ix, vs);
        assert outs[1..] == MeantCopyouts(tgt, used, ix, vs[1..]);
      } else {
        assert Definers(used, vs) == Definers(used, vs[1..]);
        assert MeantCopyouts(tgt, used, ix, vs) == MeantCopyouts(tgt, used, ix, vs[1..]);
      }
    }
  }

  lemma {:induction false} MeantAssigned(tgt: Target, used: set<nat>, ix: Numbering, cs: seq<Call>,
                                         csums: seq<seq<Copyin>>)
    requires |csums| == |cs| && forall i :: 0 <= i < |cs| ==> WritableCall(tgt, cs[i])
    requires forall r :: r in ix ==> ix[r] != NO_COPYOUT
    ensures Assigned(MeantCalls(tgt, used, ix, cs, csums)) == Numbers(ix, AllDefiners(tgt, used, cs))
    decreases cs
  {
    hide WritableCall, CallVisits, VisitsSeq, MeantCopyins, MeantCopyouts, ArgOf, Numbers, Definers;
    if cs != [] {
      MeantAssigned(tgt, used, ix, cs[1..], csums[1..]);
      RetFirst(tgt, used, cs[0]);
      var ds := Definers(used, CallVisits(tgt, cs[0]));
      MeantCopyoutIndices(tgt, used, ix, ArgVisits(tgt, cs[0]));
      NumbersSplit(ix, ds, AllDefiners(tgt, used, cs[1..]));
      NumbersSplit(ix, if RetUsed(used, cs[0]) then [cs[0].ret.value.id] else [],
                   Definers(used, ArgVisits(tgt, cs[0])));
      NumbersOne(ix);
      var all := MeantCalls(tgt, used, ix, cs, csums);
      assert all[0] == MeantCall(tgt, used, ix, cs[0], csums[0])
        && all[1..] == MeantCalls(tgt, used, ix, cs[1..], csums[1..]);
    }
  }

  lemma NumbersOne(ix: Numbering)
    ensures Numbers(ix, []) == [] && forall r :: Numbers(ix, [r]) == [NumberOf(ix, Some(r))]
  {
  }

  /** Indices are assigned densely and uniquely: instruction by instruction 0, 1, 2, and so on. */
  lemma IndicesDense(tgt: Target, used: set<nat>, cs: seq<Call>, csums: seq<seq<Copyin>>)
    requires |csums| == |cs| && Compilable(tgt, used, cs)
    ensures forall i :: 0 <= i < |cs| ==> WritableCall(tgt, cs[i])
    ensures var out := Assigned(Compiled(tgt, used, cs, csums));
      |out| == |AllDefiners(tgt, used, cs)| && forall j :: 0 <= j < |out| ==> out[j] == j
  {
    var ds := AllDefiners(tgt, used, cs);
    CompiledMeant(tgt, used, cs, csums);
    PositionsNumber(ds, 0);
    MeantAssigned(tgt, used, Positions(ds), cs, csums);
  }

  /** A reference to a result of the same call carries index 0, because it is written before the
      result has an index. It is right exactly if the result happens to be the first of the program. */
  lemma SameCallReference(tgt: Target, used: set<nat>, infos: Infos, k: nat, def: Arg, use: Arg, defAddr: u64,
                          useAddr: u64)
    requires k < TWO64 && def.ResultArg? && def.id in used && def.typ.ResourceT? && CommonOf(tgt, def.typ).dir == DirOut
    requires use.ResultArg? && use.typ.ResourceT? && use.ref == Some(def.id) && use.id !in used && CopiedIn(tgt, use)
    ensures var vs := [Visit(def, Some(defAddr)), Visit(use, Some(useAddr))];
      && WritableVisits(tgt, vs)
      && var (cins, infos1) := Copyins(tgt, used, infos, vs);
        && cins == [Copyin(useAddr, ArgOf(tgt, 0, use))]
        && Copyouts(tgt, used, infos1, k, vs).0 == [Copyout(k, defAddr, Wrap64(Size(tgt, def)))]
        && (ArgOf(tgt, 0, use) == ArgOf(tgt, k, use) <==> k == 0)
  {
    var d, u := Visit(def, Some(defAddr)), Visit(use, Some(useAddr));
    var vs := [d, u];
    assert vs[1..] == [u] && [u][1..] == [];
    var infos1 := infos[def.id := Info(defAddr, 0, false)];
    assert Copyins(tgt, used, infos1, []) == ([], infos1);
    var one := Copyin(useAddr, ArgOf(tgt, 0, use));
    assert Located(used, infos1, [u][0]) == infos1 && KnownIndex(infos1, RefOf(use)) == 0;
    assert [one] + [] == [one];
    assert Copyins(tgt, used, infos1, [u]) == ([one], infos1);
    assert Copyins(tgt, used, infos, vs).1 == infos1;
    var infos2 := infos1[def.id := Info(defAddr, Wrap64(k), false)];
    assert Copyouts(tgt, used, infos2, k + 1, []).0 == [];
    assert Copyouts(tgt, used, infos2, k + 1, [u]).0 == [];
  }
}
