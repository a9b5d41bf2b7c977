/** Which system calls can be used at all: a call is supported if every resource it needs can be
    created by calls that are supported already. */
module Resources {

  type CallId = nat

  /** What a call needs, in order, and the kinds of resources it creates. */
  datatype Target = Target(inputs: map<CallId, seq<string>>, outputs: map<CallId, set<string>>)

  function Inputs(t: Target, c: CallId): seq<string> { if c in t.inputs then t.inputs[c] else [] }

  function Outputs(t: Target, c: CallId): set<string> { if c in t.outputs then t.outputs[c] else {} }

  /** The resources that the calls of s create. */
  function Created(t: Target, s: set<CallId>): set<string> { set c, r | c in s && r in Outputs(t, c) :: r }

  predicate Ready(t: Target, c: CallId, s: set<CallId>) {
    forall i :: 0 <= i < |Inputs(t, c)| ==> Inputs(t, c)[i] in Created(t, s)
  }

  /** Every enabled call whose needs s satisfies is in s. */
  predicate Closed(t: Target, enabled: set<CallId>, s: set<CallId>) {
    forall c :: c in enabled && Ready(t, c, s) ==> c in s
  }

  ghost function Elems(order: seq<CallId>): set<CallId> { set c | c in order }

  /** The calls of s in an order in which each has its resources created by the ones before. */
  ghost predicate CreationOrder(t: Target, order: seq<CallId>, s: set<CallId>) {
    Elems(order) == s && forall i :: 0 <= i < |order| ==> Ready(t, order[i], Elems(order[..i]))
  }

  lemma ReadyMore(t: Target, c: CallId, s: set<CallId>, s1: set<CallId>)
    requires Ready(t, c, s) && s <= s1
    ensures Ready(t, c, s1)
  {
  }

  /** A creation order leads into every closed set. */
  lemma {:induction false} OrderInClosed(t: Target, enabled: set<CallId>, order: seq<CallId>, n: nat, s: set<CallId>)
    requires n <= |order| && (forall c :: c in order ==> c in enabled) && Closed(t, enabled, s)
    requires forall i :: 0 <= i < |order| ==> Ready(t, order[i], Elems(order[..i]))
    ensures Elems(order[..n]) <= s
  {
    if n > 0 {
      OrderInClosed(t, enabled, order, n - 1, s);
      ReadyMore(t, order[n - 1], Elems(order[..n - 1]), s);
      assert order[..n] == order[..n - 1] + [order[n - 1]];
    }
  }

  /** The least closed set is unique: the result does not depend on the order of iteration. */
  lemma LeastIsUnique(t: Target, enabled: set<CallId>, a: set<CallId>, order: seq<CallId>, b: set<CallId>,
                      order1: seq<CallId>)
    requires a <= enabled && b <= enabled && Closed(t, enabled, a) && Closed(t, enabled, b)
    requires CreationOrder(t, order, a) && CreationOrder(t, order1, b)
    ensures a == b
  {
    OrderInClosed(t, enabled, order, |order|, b);
    OrderInClosed(t, enabled, order1, |order1|, a);
    assert order[..|order|] == order && order1[..|order1|] == order1;
  }

  lemma CreatedMore(t: Target, s: set<CallId>, c: CallId)
    ensures Created(t, s + {c}) == Created(t, s) + Outputs(t, c)
  {
  }

  /** Are all needed resources in canCreate? */
  method IsReady(t: Target, c: CallId, canCreate: set<string>) returns (ready: bool)
    ensures ready <==> forall i :: 0 <= i < |Inputs(t, c)| ==> Inputs(t, c)[i] in canCreate
  {
    for i := 0 to |Inputs(t, c)|
      invariant forall k :: 0 <= k < i ==> Inputs(t, c)[k] in canCreate
    {
      if Inputs(t, c)[i] !in canCreate {
        return false;
      }
    }
    return true;
  }

  /** One round over the enabled calls, in any order. */
  method Round(t: Target, enabled: set<CallId>, supported0: set<CallId>, canCreate0: set<string>,
               ghost order0: seq<CallId>)
    returns (supported: set<CallId>, canCreate: set<string>, ghost order: seq<CallId>)
    requires supported0 <= enabled && canCreate0 == Created(t, supported0) && CreationOrder(t, order0, supported0)
    ensures supported0 <= supported <= enabled && canCreate == Created(t, supported)
      && CreationOrder(t, order, supported)
    ensures supported == supported0 ==> Closed(t, enabled, supported)
  {
    supported, canCreate, order := supported0, canCreate0, order0;
    var todo := enabled;
    while todo != {}
      invariant todo <= enabled && supported0 <= supported <= enabled
      invariant canCreate == Created(t, supported) && CreationOrder(t, order, supported)
      invariant supported == supported0 ==> forall c :: c in enabled && c !in todo && Ready(t, c, supported) ==>
        c in supported
      decreases todo
    {
      var c :| c in todo;
      todo := todo - {c};
      if c !in supported {
        var ready := IsReady(t, c, canCreate);
        if ready {
          CreatedMore(t, supported, c);
          OrderGrows(t, order, supported, c);
          supported := supported + {c};
          canCreate := canCreate + Outputs(t, c);
          order := order + [c];
        }
      }
    }
  }

  lemma OrderGrows(t: Target, order: seq<CallId>, s: set<CallId>, c: CallId)
    requires CreationOrder(t, order, s) && Ready(t, c, s)
    ensures CreationOrder(t, order + [c], s + {c})
  {
    var more := order + [c];
    forall i | 0 <= i < |more|
      ensures Ready(t, more[i], Elems(more[..i]))
    {
      if i < |order| {
        assert more[..i] == order[..i];
      } else {
        assert more[..i] == order;
      }
    }
  }

  /** The supported calls, and for every other enabled call a resource that cannot be created. The
      two parts make up all enabled calls, so none is lost. */
  method TransitivelyEnabledCalls(t: Target, enabled: set<CallId>)
    returns (supported: set<CallId>, disabled: map<CallId, string>, ghost order: seq<CallId>)
    ensures supported <= enabled && Closed(t, enabled, supported) && CreationOrder(t, order, supported)
    ensures forall s :: Closed(t, enabled, s) ==> supported <= s
    ensures disabled.Keys == enabled - supported && |enabled| == |supported| + |disabled|
    ensures forall c :: c in disabled ==> disabled[c] in Inputs(t, c) && disabled[c] !in Created(t, supported)
  {
    supported, order := {}, [];
    var canCreate: set<string> := {};
    var grew := true;
    while grew
      invariant supported <= enabled && canCreate == Created(t, supported) && CreationOrder(t, order, supported)
      invariant !grew ==> Closed(t, enabled, supported)
      decreases grew, |enabled - supported|
    {
      var n := |supported|;
      ghost var before := supported;
      supported, canCreate, order := Round(t, enabled, supported, canCreate, order);
      Sizes(before, supported, enabled);
      grew := n != |supported|;
    }
    LeastSet(t, enabled, supported, order);
    disabled := Explain(t, enabled, supported, canCreate);
    assert |enabled| == |supported| + |enabled - supported|;
  }

  lemma LeastSet(t: Target, enabled: set<CallId>, supported: set<CallId>, order: seq<CallId>)
    requires supported <= enabled && CreationOrder(t, order, supported)
    ensures forall s :: Closed(t, enabled, s) ==> supported <= s
  {
    assert order[..|order|] == order;
    forall s | Closed(t, enabled, s)
      ensures supported <= s
    {
      OrderInClosed(t, enabled, order, |order|, s);
    }
  }

  lemma Sizes(a: set<CallId>, b: set<CallId>, all: set<CallId>)
    requires a <= b <= all
    ensures |a| == |b| ==> a == b
    ensures |a| != |b| ==> |all - b| < |all - a|
  {
    assert |b| == |a| + |b - a|;
    assert all - a == (all - b) + (b - a);
    assert |all - a| == |all - b| + |b - a|;
  }

  /** The first missing resource of every call that is not supported. */
  method Explain(t: Target, enabled: set<CallId>, supported: set<CallId>, canCreate: set<string>)
    returns (disabled: map<CallId, string>)
    requires supported <= enabled && canCreate == Created(t, supported) && Closed(t, enabled, supported)
    ensures disabled.Keys == enabled - supported
    ensures forall c :: c in disabled ==> disabled[c] in Inputs(t, c) && disabled[c] !in canCreate
  {
    disabled := map[];
    var todo := enabled;
    while todo != {}
      invariant todo <= enabled && disabled.Keys == enabled - supported - todo
      invariant forall c :: c in disabled ==> disabled[c] in Inputs(t, c) && disabled[c] !in canCreate
      decreases todo
    {
      var c :| c in todo;
      todo := todo - {c};
      if c !in supported {
        var i := 0;
        assert !Ready(t, c, supported);
        while i < |Inputs(t, c)| && Inputs(t, c)[i] in canCreate
          invariant 0 <= i <= |Inputs(t, c)| && forall k :: 0 <= k < i ==> Inputs(t, c)[k] in canCreate
        {
          i := i + 1;
        }
        disabled := disabled[c := Inputs(t, c)[i]];
      }
    }
  }
}
