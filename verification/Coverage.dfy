/** Coverage states of functions in the call graph. A function that is covered for the first time marks
    the functions it calls as reachable but untested, and so on along the calls; the marking is done
    in place and stops at functions that are already marked. */
module Coverage {
  import opened Sets

  /** States in ascending order. */
  newtype CoverKind = x: int | 0 <= x <= 4

  const OTHER: CoverKind := 0
  const OUTSIDE: CoverKind := 1
  const UNTEST: CoverKind := 2
  const UNCOVER: CoverKind := 3
  const COVER: CoverKind := 4

  class DFunction {
    var state: CoverKind
    /** The resolved callees. */
    const callees: set<DFunction>
    /** How many blocks of the function are covered. */
    var covered: nat

    constructor (callees: set<DFunction>)
      ensures this.callees == callees && state == OUTSIDE && covered == 0
    {
      this.callees, state, covered := callees, OUTSIDE, 0;
    }

    /** Raises the state, never lowers it. */
    method SetState(kind: CoverKind)
      modifies this`state
      ensures state == if kind < old(state) then old(state) else kind
    {
      if !(kind < state) {
        state := kind;
      }
    }

    /** Raises the state and, if the function was not marked before, marks everything it calls.
        `all` is the set of all functions of the module. */
    method Update(kind: CoverKind, ghost all: set<DFunction>)
      requires this in all && Closed(all)
      modifies set f | f in all :: f`state
      ensures var before, after := old(Marked(all)), Marked(all);
        && before <= after && (kind >= UNTEST ==> this in after) && (kind < UNTEST ==> after == before)
        && Grown(this, before, after)
      ensures state == if kind < old(state) then old(state) else kind
      ensures forall g :: g in all && g != this ==> g.state == if g in Marked(all) && old(g.state) < UNTEST then UNTEST
        else old(g.state)
      decreases |all - Marked(all)|, 0
    {
      if state < UNTEST && kind >= UNTEST {
        ghost var before := Marked(all);
        SetState(kind);
        assert Marked(all) == before + {this};
        UpdateUntestedState(all);
        ReachesSelf(this);
      } else {
        SetState(kind);
        assert Marked(all) == old(Marked(all));
      }
    }

    method UpdateUntestedState(ghost all: set<DFunction>)
      requires this in Marked(all) && Closed(all)
      modifies set f | f in all :: f`state
      ensures var before, after := old(Marked(all)), Marked(all);
        && before <= after && callees <= after
        && Grown(this, before, after)
      ensures forall g :: g in all ==> g.state == if g in Marked(all) && old(g.state) < UNTEST then UNTEST
        else old(g.state)
      decreases |all - Marked(all)|, 1
    {
      ghost var before := Marked(all);
      var todo := callees;
      while todo != {}
        invariant todo <= callees && before <= Marked(all) && callees - todo <= Marked(all)
        invariant Grown(this, before, Marked(all))
        invariant forall g :: g in all ==> g.state == if g in Marked(all) && old(g.state) < UNTEST then UNTEST
          else old(g.state)
        decreases todo
      {
        var f :| f in todo;
        todo := todo - {f};
        ghost var middle := Marked(all);
        FewerLeft(all, before, middle);
        f.Update(UNTEST, all);
        GrownMore(this, f, before, middle, Marked(all));
      }
    }
  }

  /** The functions in a state of at least UNTEST. */
  ghost function Marked(all: set<DFunction>): (m: set<DFunction>)
    reads all
    ensures m <= all
  {
    set f | f in all && f.state >= UNTEST
  }

  ghost predicate Closed(all: set<DFunction>) { forall f :: f in all ==> f.callees <= all }

  /** The newly marked functions have only marked callees and are reachable from f. */
  ghost predicate Grown(f: DFunction, before: set<DFunction>, after: set<DFunction>) {
    forall g :: g in after && g !in before ==> g.callees <= after && Reaches(f, g)
  }

  lemma GrownMore(f: DFunction, h: DFunction, before: set<DFunction>, middle: set<DFunction>, after: set<DFunction>)
    requires h in f.callees && Grown(f, before, middle) && Grown(h, middle, after) && middle <= after
    ensures Grown(f, before, after)
  {
    forall g | g in after && g !in before
      ensures g.callees <= after && Reaches(f, g)
    {
      if g !in middle {
        ReachesCallee(f, h, g);
      }
    }
  }

  lemma FewerLeft(all: set<DFunction>, before: set<DFunction>, after: set<DFunction>)
    requires before <= after <= all
    ensures |all - after| <= |all - before|
  {
    SubsetSize(all - after, all - before);
  }

  // ---- reachability ----

  /** There is a chain of n calls from f to g. */
  ghost predicate ReachesIn(f: DFunction, g: DFunction, n: nat) {
    if n == 0 then f == g else exists h :: h in f.callees && ReachesIn(h, g, n - 1)
  }

  ghost predicate Reaches(f: DFunction, g: DFunction) { exists n: nat :: ReachesIn(f, g, n) }

  lemma ReachesSelf(f: DFunction)
    ensures Reaches(f, f)
  {
    assert ReachesIn(f, f, 0);
  }

  lemma ReachesCallee(f: DFunction, h: DFunction, g: DFunction)
    requires h in f.callees && Reaches(h, g)
    ensures Reaches(f, g)
  {
    var n: nat :| ReachesIn(h, g, n);
    assert ReachesIn(f, g, n + 1);
  }

  /** A set closed under calls contains whatever its members reach. */
  lemma {:induction false} ClosedReaches(s: set<DFunction>, f: DFunction, g: DFunction, n: nat)
    requires Closed(s) && ReachesIn(f, g, n) && f in s
    ensures g in s
    decreases n
  {
    if n > 0 {
      var h :| h in f.callees && ReachesIn(h, g, n - 1);
      ClosedReaches(s, h, g, n - 1);
    }
  }

  lemma {:induction false} ReachesOn(f: DFunction, g: DFunction, h: DFunction, n: nat)
    requires ReachesIn(f, g, n) && h in g.callees
    ensures ReachesIn(f, h, n + 1)
    decreases n
  {
    if n > 0 {
      var e :| e in f.callees && ReachesIn(e, g, n - 1);
      ReachesOn(e, g, h, n - 1);
    } else {
      assert ReachesIn(h, h, 0);
    }
  }

  // ---- the whole module ----

  class DBasicBlock {
    var state: CoverKind
    const parent: DFunction

    constructor (parent: DFunction)
      ensures this.parent == parent && state == OUTSIDE
    {
      this.parent, state := parent, OUTSIDE;
    }
  }

  ghost predicate FromSome(roots: set<DFunction>, g: DFunction) { exists f :: f in roots && Reaches(f, g) }

  /** The marked functions are exactly those reachable from the roots. */
  ghost predicate Exact(marked: set<DFunction>, all: set<DFunction>, roots: set<DFunction>) {
    roots <= all && forall g :: g in all ==> (g in marked <==> FromSome(roots, g))
  }

  lemma ExactClosed(marked: set<DFunction>, all: set<DFunction>, roots: set<DFunction>)
    requires Closed(all) && marked <= all && Exact(marked, all, roots)
    ensures Closed(marked)
  {
    forall g, h | g in marked && h in g.callees
      ensures h in marked
    {
      var f :| f in roots && Reaches(f, g);
      var n: nat :| ReachesIn(f, g, n);
      ReachesOn(f, g, h, n);
      assert Reaches(f, h);
    }
  }

  /** One more root: what the in-place marking adds is exactly what the new root reaches. */
  lemma ExactMore(before: set<DFunction>, after: set<DFunction>, all: set<DFunction>, roots: set<DFunction>,
                  f: DFunction)
    requires Closed(all) && Exact(before, all, roots) && before <= after <= all && f in after && Grown(f, before, after)
    ensures Exact(after, all, roots + {f})
  {
    ExactClosed(before, all, roots);
    assert Closed(after);
    forall g | g in all
      ensures g in after <==> FromSome(roots + {f}, g)
    {
      if g in after {
        assert g in before ==> FromSome(roots, g);
        assert g !in before ==> f in roots + {f} && Reaches(f, g);
      }
      if FromSome(roots + {f}, g) {
        var h :| h in roots + {f} && Reaches(h, g);
        ReachesSelf(h);
        assert h in roots ==> FromSome(roots, h);
        assert h in after;
        var n: nat :| ReachesIn(h, g, n);
        ClosedReaches(after, h, g, n);
      }
    }
  }

  class DModule {
    const functions: set<DFunction>
    const blocks: set<DBasicBlock>
    /** The functions with a block that was updated to at least UNTEST. */
    ghost var updated: set<DFunction>

    ghost function CoveredBlocks(f: DFunction): set<DBasicBlock>
      reads blocks
    {
      set b | b in blocks && b.parent == f && b.state == COVER
    }

    ghost predicate Valid()
      reads this, functions, blocks
    {
      && Closed(functions) && (forall b :: b in blocks ==> b.parent in functions)
      && Exact(Marked(functions), functions, updated)
      && (forall f :: f in functions ==> f.covered == |CoveredBlocks(f)|)
    }

    constructor (functions: set<DFunction>, blocks: set<DBasicBlock>)
      requires Closed(functions) && forall b :: b in blocks ==> b.parent in functions && b.state == OUTSIDE
      requires forall f :: f in functions ==> f.state == OUTSIDE && f.covered == 0
      ensures Valid() && this.functions == functions && this.blocks == blocks && updated == {}
    {
      this.functions, this.blocks, updated := functions, blocks, {};
      new;
      assert Marked(functions) == {};
      assert forall f :: f in functions ==> CoveredBlocks(f) == {};
    }

    /** A block reports a new state. The process exits if that would lower the state; otherwise the
        block takes it, covered blocks are counted, and the function is updated. */
    method UpdateBlock(b: DBasicBlock, kind: CoverKind) returns (exited: bool)
      requires Valid() && b in blocks
      modifies this, functions, blocks
      ensures exited <==> kind < old(b.state)
      ensures Valid()
      ensures !exited ==> b.state == kind && updated == old(updated) + if kind >= UNTEST then {b.parent} else {}
      ensures exited ==> updated == old(updated) && b.state == old(b.state)
      ensures forall c :: c in blocks && c != b ==> c.state == old(c.state)
      ensures exited ==> forall g :: g in functions ==> g.state == old(g.state)
      ensures !exited ==> b.parent.state == if kind < old(b.parent.state) then old(b.parent.state) else kind
      ensures !exited ==> forall g :: g in functions && g != b.parent ==>
        g.state == if g in Marked(functions) && old(g.state) < UNTEST then UNTEST else old(g.state)
    {
      hide Exact, Grown, Closed, Marked;
      if kind < b.state {
        return true;
      }
      SetBlockState(b, kind);
      ghost var before := Marked(functions);
      ghost var counts := map f | f in functions :: CoveredBlocks(f);
      b.parent.Update(kind, functions);
      assert forall f :: f in functions ==> CoveredBlocks(f) == counts[f];
      if kind >= UNTEST {
        ExactMore(before, Marked(functions), functions, updated, b.parent);
        updated := updated + {b.parent};
      }
      return false;
    }

    method SetBlockState(b: DBasicBlock, kind: CoverKind)
      requires Valid() && b in blocks && kind >= b.state
      modifies b`state, b.parent`covered
      ensures Valid() && b.state == kind
    {
      ghost var before := CoveredBlocks(b.parent);
      if kind == COVER && b.state != COVER {
        b.parent.covered := b.parent.covered + 1;
      }
      b.state := kind;
      assert CoveredBlocks(b.parent) == if kind == COVER then before + {b} else before;
      assert forall f :: f in functions && f != b.parent ==> CoveredBlocks(f) == old(CoveredBlocks(f));
      assert Marked(functions) == old(Marked(functions));
    }
  }
}
