/** What squashing does to memory, step by step. The traversal of a tree is a list of marks: visits, each
    with the bits of its content as the squashed pieces set them, and fills, which squashing stores where
    the tree stores nothing: zeros for padding and output data, output values, the rest of bitfield units,
    and the NULs behind squashed results. */
module SquashMarks {
  import opened ProgTypes
  import opened ExecFormat
  import opened ExecCompile
  import opened ExecMeaning
  import opened Memory
  import opened MemoryImage
  import opened Squash

  /** `s` holds the bits of the visit's content, `body` and `nul` are what is filled in beside them. */
  datatype Mark = Mark(v: Option<Visit>, s: Effect, body: Effect, nul: set<int>)

  function Fill(k: Mark): Effect { k.body + Cleared(k.nul) }

  function Now(k: Mark): Effect { k.s + Fill(k) }

  /** Everything that squashing stores; later marks win. */
  function Whole(ms: seq<Mark>): Effect {
    if ms == [] then map[] else Now(ms[0]) + Whole(ms[1..])
  }

  function Fills(ms: seq<Mark>): Effect {
    if ms == [] then map[] else Fill(ms[0]) + Fills(ms[1..])
  }

  function Visited(ms: seq<Mark>): seq<Visit> {
    if ms == [] then [] else (if ms[0].v.Some? then [ms[0].v.value] else []) + Visited(ms[1..])
  }

  /** The bits that the original sets at a mark. */
  function Sets(tgt: Target, env: Env, pid: nat, k: Mark): Effect {
    if k.v.Some? then Content(tgt, env, pid, k.v.value) else map[]
  }

  /** Squashed results still clear the byte behind their text, output results included, which are
      copied in once they are squashed. */
  function SquashedNul(v: Visit): set<int> {
    if v.addr.Some? && v.arg.ResultArg? && TextArg(v.arg) then ByteBits(v.addr.value + v.arg.typ.c.size, 1) else {}
  }

  function SquashedNuls(vs: seq<Visit>): set<int> {
    if vs == [] then {} else SquashedNul(vs[0]) + SquashedNuls(vs[1..])
  }

  /** A visit's squashed content has its bits, and what is filled in beside it lies elsewhere. */
  ghost predicate GoodMark(tgt: Target, env: Env, pid: nat, k: Mark) {
    && k.s.Keys == Sets(tgt, env, pid, k).Keys && k.s.Keys !! Fill(k).Keys
    && k.nul == (if k.v.Some? then SquashedNul(k.v.value) else {})
    && (k.v.Some? ==> k.s.Keys !! NulBits(tgt, k.v.value))
  }

  ghost predicate GoodMarks(tgt: Target, env: Env, pid: nat, ms: seq<Mark>) {
    forall i :: 0 <= i < |ms| ==> GoodMark(tgt, env, pid, ms[i])
  }

  // ---- lists of marks ----

  lemma {:induction false} WholeSplit(a: seq<Mark>, b: seq<Mark>)
    ensures Whole(a + b) == Whole(a) + Whole(b) && Visited(a + b) == Visited(a) + Visited(b)
    decreases a
  {
    hide Now;
    if a == [] {
      assert a + b == b;
    } else {
      assert (a + b)[0] == a[0] && (a + b)[1..] == a[1..] + b;
      WholeSplit(a[1..], b);
      MergeAssoc(Now(a[0]), Whole(a[1..]), Whole(b));
      VisitedAssoc(if a[0].v.Some? then [a[0].v.value] else [], Visited(a[1..]), Visited(b));
    }
  }

  lemma VisitedAssoc(a: seq<Visit>, b: seq<Visit>, c: seq<Visit>)
    ensures a + (b + c) == a + b + c
  {
  }

  lemma WholeOne(k: Mark)
    ensures Whole([k]) == Now(k) && Visited([k]) == if k.v.Some? then [k.v.value] else []
  {
    hide Now;
    assert [k][1..] == [] && Whole([]) == map[] && Visited([]) == [];
    assert Now(k) + map[] == Now(k);
  }

  lemma GoodJoin(tgt: Target, env: Env, pid: nat, a: seq<Mark>, b: seq<Mark>)
    requires GoodMarks(tgt, env, pid, a) && GoodMarks(tgt, env, pid, b)
    ensures GoodMarks(tgt, env, pid, a + b)
  {
    hide GoodMark;
  }

  /** Where no content lies, only fills have an effect. */
  lemma {:induction false} WholeElsewhere(tgt: Target, env: Env, pid: nat, ms: seq<Mark>, y: int)
    requires GoodMarks(tgt, env, pid, ms) && y !in ContentBits(tgt, env, pid, Visited(ms))
    ensures (y in Whole(ms) <==> y in Fills(ms)) && (y in Fills(ms) ==> Whole(ms)[y] == Fills(ms)[y])
    decreases ms
  {
    hide Content, Fill, NulBits;
    if ms != [] {
      var k, rest := ms[0], ms[1..];
      assert GoodMark(tgt, env, pid, k);
      VisitedFirst(tgt, env, pid, ms);
      WholeElsewhere(tgt, env, pid, rest, y);
    }
  }

  /** The first mark and the visits of the rest. */
  lemma VisitedFirst(tgt: Target, env: Env, pid: nat, ms: seq<Mark>)
    requires ms != []
    ensures ContentBits(tgt, env, pid, Visited(ms)) ==
            Sets(tgt, env, pid, ms[0]).Keys + ContentBits(tgt, env, pid, Visited(ms[1..]))
    ensures Effects(tgt, env, pid, Visited(ms)) ==
            Sets(tgt, env, pid, ms[0]) + Cleared(if ms[0].v.Some? then NulBits(tgt, ms[0].v.value) else {})
            + Effects(tgt, env, pid, Visited(ms[1..]))
  {
    hide Content, NulBits;
    var k, rest := ms[0], Visited(ms[1..]);
    if k.v.Some? {
      var vs := [k.v.value] + rest;
      assert Visited(ms) == vs && vs[0] == k.v.value && vs[1..] == rest;
    } else {
      assert Visited(ms) == [] + rest == rest;
      assert map[] + Cleared({}) + Effects(tgt, env, pid, rest) == Effects(tgt, env, pid, rest);
    }
  }

  lemma FirstBits(c: Effect, other: Effect, e: Effect, y: int)
    requires y in c && y !in other
    ensures y in c + other + e && (c + other + e)[y] == if y in e then e[y] else c[y]
  {
  }

  /** Mark i is the last one that sets bit y. */
  predicate Decides(tgt: Target, env: Env, pid: nat, ms: seq<Mark>, i: nat, y: int) {
    i < |ms| && y in Sets(tgt, env, pid, ms[i]) && y !in ContentBits(tgt, env, pid, Visited(ms[i + 1..]))
  }

  /** What the original leaves there, unless text clears it later, is what the pieces leave there, unless it
      is filled in later. */
  predicate Survives(tgt: Target, env: Env, pid: nat, ms: seq<Mark>, i: nat, y: int)
    requires i < |ms| && y in Sets(tgt, env, pid, ms[i]) && y in ms[i].s
  {
    var later := ms[i + 1..];
    (Sets(tgt, env, pid, ms[i])[y] && y !in Nuls(tgt, Visited(later)))
    == (if y in Fills(later) then Fills(later)[y] else ms[i].s[y])
  }

  /** Every bit of content survives. */
  ghost predicate Kept(tgt: Target, env: Env, pid: nat, ms: seq<Mark>) {
    forall i: nat, y :: Decides(tgt, env, pid, ms, i, y) && y in ms[i].s ==> Survives(tgt, env, pid, ms, i, y)
  }

  /** What the original and the squashed form leave at a bit, seen from the last mark that sets it. */
  lemma {:induction false} EffectAt(tgt: Target, env: Env, pid: nat, ms: seq<Mark>, i: nat, y: int)
    requires GoodMarks(tgt, env, pid, ms) && Decides(tgt, env, pid, ms, i, y)
    ensures y in ContentBits(tgt, env, pid, Visited(ms)) && y in ms[i].s
    ensures var e := Effects(tgt, env, pid, Visited(ms));
      y in e && e[y] == (Sets(tgt, env, pid, ms[i])[y] && y !in Nuls(tgt, Visited(ms[i + 1..])))
    ensures var f, later := Whole(ms), ms[i + 1..];
      y in f && f[y] == if y in Fills(later) then Fills(later)[y] else ms[i].s[y]
    decreases i
  {
    hide Content, NulBits, Sets, Fill, Nuls, Fills;
    var k, rest := ms[0], ms[1..];
    assert GoodMark(tgt, env, pid, ms[i]);
    VisitedFirst(tgt, env, pid, ms);
    if i == 0 {
      EffectsElsewhere(tgt, env, pid, Visited(rest), y);
      WholeElsewhere(tgt, env, pid, rest, y);
      FirstBits(Sets(tgt, env, pid, k), Cleared(if k.v.Some? then NulBits(tgt, k.v.value) else {}),
                Effects(tgt, env, pid, Visited(rest)), y);
      FirstBits(k.s, Fill(k), Whole(rest), y);
    } else {
      assert rest[i - 1] == ms[i] && rest[i..] == ms[i + 1..];
      EffectAt(tgt, env, pid, rest, i - 1, y);
    }
  }

  /** Every bit of content has a last mark that sets it. */
  lemma {:induction false} Decided(tgt: Target, env: Env, pid: nat, ms: seq<Mark>, y: int) returns (i: nat)
    requires y in ContentBits(tgt, env, pid, Visited(ms))
    ensures Decides(tgt, env, pid, ms, i, y)
    decreases ms
  {
    hide Sets;
    if ms == [] {
      assert false;
    } else {
      VisitedFirst(tgt, env, pid, ms);
      var rest := ms[1..];
      if y in ContentBits(tgt, env, pid, Visited(rest)) {
        var j := Decided(tgt, env, pid, rest, y);
        i := j + 1;
        assert rest[j + 1..] == ms[i + 1..];
      } else {
        i := 0;
      }
    }
  }

  ghost predicate Agree(e: Effect, f: Effect, bits: set<int>) {
    forall y :: y in bits ==> y in e && y in f && e[y] == f[y]
  }

  /** The two effects agree on all content if and only if every bit of it survives. */
  lemma KeptIff(tgt: Target, env: Env, pid: nat, ms: seq<Mark>)
    requires GoodMarks(tgt, env, pid, ms)
    ensures Agree(Effects(tgt, env, pid, Visited(ms)), Whole(ms), ContentBits(tgt, env, pid, Visited(ms)))
            <==> Kept(tgt, env, pid, ms)
    ensures ContentBits(tgt, env, pid, Visited(ms)) <= Effects(tgt, env, pid, Visited(ms)).Keys
    ensures ContentBits(tgt, env, pid, Visited(ms)) <= Whole(ms).Keys
  {
    hide Decides, Effects, Whole, ContentBits, Visited, GoodMarks, Sets, Nuls, Fills;
    var e, f, bits := Effects(tgt, env, pid, Visited(ms)), Whole(ms), ContentBits(tgt, env, pid, Visited(ms));
    forall i: nat, y | Decides(tgt, env, pid, ms, i, y)
      ensures y in bits && y in e && y in f && i < |ms| && y in ms[i].s && y in Sets(tgt, env, pid, ms[i])
      ensures e[y] == f[y] <==> Survives(tgt, env, pid, ms, i, y)
    {
      DecidesWhat(tgt, env, pid, ms, i, y);
      EffectAt(tgt, env, pid, ms, i, y);
    }
    forall y | y in bits
      ensures exists i: nat :: Decides(tgt, env, pid, ms, i, y)
    {
      var i := Decided(tgt, env, pid, ms, y);
    }
  }

  lemma DecidesWhat(tgt: Target, env: Env, pid: nat, ms: seq<Mark>, i: nat, y: int)
    requires Decides(tgt, env, pid, ms, i, y)
    ensures i < |ms| && y in Sets(tgt, env, pid, ms[i])
  {
  }
}
