/** Feedback signal: elements with priorities. */
module Signals {

  type Signal = map<nat, int>

  /** Everything in s is in t with at least the same priority. */
  predicate Covered(s: Signal, t: Signal) { forall e :: e in s ==> e in t && s[e] <= t[e] }

  /** s joined with s1; the higher priority wins. */
  function Merge(s: Signal, s1: Signal): (r: Signal)
    ensures r.Keys == s.Keys + s1.Keys
    ensures Covered(s, r) && Covered(s1, r)
  {
    map e | e in s.Keys + s1.Keys :: if e in s && (e !in s1 || s[e] >= s1[e]) then s[e] else s1[e]
  }

  /** What s1 has that s does not have with at least that priority. */
  function Diff(s: Signal, s1: Signal): Signal {
    map e | e in s1 && !(e in s && s[e] >= s1[e]) :: s1[e]
  }

  /** The join is the least signal that covers both. */
  lemma MergeLeast(s: Signal, s1: Signal, t: Signal)
    ensures Covered(Merge(s, s1), t) <==> Covered(s, t) && Covered(s1, t)
  {
    if Covered(Merge(s, s1), t) {
      forall e | e in s
        ensures e in t && s[e] <= t[e]
      {
        assert e in Merge(s, s1);
      }
      forall e | e in s1
        ensures e in t && s1[e] <= t[e]
      {
        assert e in Merge(s, s1);
      }
    }
  }

  /** Merging only the difference is enough. */
  lemma MergeDiff(s: Signal, s1: Signal)
    ensures Merge(s, Diff(s, s1)) == Merge(s, s1) && Covered(Diff(s, s1), s1)
  {
    var d := Diff(s, s1);
    forall e | e in Merge(s, s1)
      ensures e in Merge(s, d) && Merge(s, d)[e] == Merge(s, s1)[e]
    {
    }
    assert Merge(s, d).Keys == Merge(s, s1).Keys;
  }

  /** And no less would do: whatever gives the same join contains the difference. */
  lemma DiffLeast(s: Signal, s1: Signal, t: Signal)
    requires Merge(s, t) == Merge(s, s1)
    ensures Covered(Diff(s, s1), t)
  {
    forall e | e in Diff(s, s1)
      ensures e in t && Diff(s, s1)[e] <= t[e]
    {
      assert e in Merge(s, s1) && Merge(s, t)[e] == Merge(s, s1)[e] == s1[e];
    }
  }

  lemma CoveredTrans(a: Signal, b: Signal, c: Signal)
    requires Covered(a, b) && Covered(b, c)
    ensures Covered(a, c)
  {
  }

  lemma CoveredSelf(a: Signal)
    ensures Covered(a, a)
  {
  }

  lemma MergeMonotone(a: Signal, b: Signal, c: Signal, d: Signal)
    requires Covered(a, c) && Covered(b, d)
    ensures Covered(Merge(a, b), Merge(c, d))
  {
    hide Covered, Merge;
    CoveredTrans(a, c, Merge(c, d));
    CoveredTrans(b, d, Merge(c, d));
    MergeLeast(a, b, Merge(c, d));
  }

  lemma EmptyCovered(a: Signal)
    ensures Covered(map[], a)
  {
  }

  /** A batch and its rest together are the whole. */
  lemma SplitCovers(s: Signal, n: nat, c: Signal, rest: Signal)
    requires Split(s, n, c, rest)
    ensures Covered(s, Merge(c, rest)) && Covered(c, s) && Covered(rest, s) && |s| == |c| + |rest|
  {
    assert |s.Keys| == |c.Keys| + |rest.Keys|;
  }

  // ---- the operations as they run ----

  method MergeInto(s: Signal, s1: Signal) returns (r: Signal)
    ensures r == Merge(s, s1)
  {
    r := s;
    var todo := s1.Keys;
    while todo != {}
      invariant todo <= s1.Keys && r.Keys == s.Keys + (s1.Keys - todo)
      invariant forall e :: e in r ==> r[e] == if e in s1 && e !in todo then Merge(s, s1)[e] else s[e]
      decreases todo
    {
      var e :| e in todo;
      todo := todo - {e};
      if e !in r || r[e] < s1[e] {
        r := r[e := s1[e]];
      }
    }
  }

  method DiffOf(s: Signal, s1: Signal) returns (r: Signal)
    ensures r == Diff(s, s1)
  {
    r := map[];
    var todo := s1.Keys;
    while todo != {}
      invariant todo <= s1.Keys && r.Keys == Diff(s, s1).Keys - todo && forall e :: e in r ==> r[e] == s1[e]
      decreases todo
    {
      var e :| e in todo;
      todo := todo - {e};
      if !(e in s && s[e] >= s1[e]) {
        r := r[e := s1[e]];
      }
    }
  }

  /** A batch c of s and what remains. */
  predicate Split(s: Signal, n: nat, c: Signal, rest: Signal) {
    && c.Keys !! rest.Keys && c.Keys + rest.Keys == s.Keys
    && (forall e :: e in c ==> c[e] == s[e]) && (forall e :: e in rest ==> rest[e] == s[e])
    && |c| == (if |s| < n then |s| else n)
  }

  lemma MoveOne(rest: Signal, c: Signal, e: nat, p: int)
    requires e in rest && e !in c
    ensures |rest - {e}| == |rest| - 1 && |c[e := p]| == |c| + 1
  {
    assert (rest - {e}).Keys == rest.Keys - {e};
    assert |(rest - {e}).Keys| == |rest.Keys| - 1;
    assert c[e := p].Keys == c.Keys + {e};
    assert |c[e := p].Keys| == |c.Keys| + 1;
  }

  /** Takes up to n elements, whichever come first in the iteration. */
  method TakeBatch(s: Signal, n: nat) returns (c: Signal, rest: Signal)
    requires n > 0
    ensures Split(s, n, c, rest)
  {
    c, rest := map[], s;
    var left := n;
    while rest.Keys != {} && left > 0
      invariant left <= n && |c| == n - left && |c| + |rest| == |s|
      invariant c.Keys !! rest.Keys && c.Keys + rest.Keys == s.Keys
      invariant (forall e :: e in c ==> c[e] == s[e]) && (forall e :: e in rest ==> rest[e] == s[e])
      decreases left
    {
      var e :| e in rest.Keys;
      var p := rest[e];
      MoveOne(rest, c, e, p);
      rest := rest - {e};
      c := c[e := p];
      left := left - 1;
    }
  }
}
