/** The allocator for program memory: a two-level bitmap with one bit per granule of 64 bytes. The
    first level points to blocks of 64 words that are allocated when first needed. It behaves like a
    plain set of granules. */
module Alloc {

  const GRANULE: nat := 64
  const L0_SIZE: nat := 64
  const L1_SIZE: nat := 64
  const WORD_BITS: nat := 64
  /** Granules per block of the second level. */
  const BLOCK: nat := 4096
  const MAX_GRANULES: nat := 262144

  // ---- words ----

  function And(x: bv64, y: bv64): bv64 { x & y }

  function Or(x: bv64, y: bv64): bv64 { x | y }

  function Double(x: bv64): bv64 { x << 1 }

  /** The word with only bit b set. */
  function Bit(b: nat): bv64 { if b == 0 then 1 else Double(Bit(b - 1)) }

  predicate GetBit(w: bv64, b: nat) { And(w, Bit(b)) != 0 }

  lemma {:induction false} BitsDiffer(b: nat, c: nat)
    requires b < c
    ensures And(Bit(b), Bit(c)) == 0
  {
    hide And, Double;
    if b > 0 {
      BitsDiffer(b - 1, c - 1);
      DoubleBoth(Bit(b - 1), Bit(c - 1));
    } else {
      LowBit(Bit(c - 1));
    }
  }

  lemma DoubleBoth(x: bv64, y: bv64)
    requires And(x, y) == 0
    ensures And(Double(x), Double(y)) == 0
  {
  }

  lemma LowBit(x: bv64)
    ensures And(1, Double(x)) == 0
  {
  }

  lemma {:induction false} ZeroStays(b: nat, k: nat)
    requires Bit(b) == 0
    ensures Bit(b + k) == 0
  {
    if k > 0 {
      ZeroStays(b, k - 1);
    }
  }

  lemma LastBit()
    ensures Bit(63) == 0x8000_0000_0000_0000
  {
    assert Bit(7) == 0x80;
    assert Bit(14) == 0x4000;
    assert Bit(21) == 0x20_0000;
    assert Bit(28) == 0x1000_0000;
    assert Bit(35) == 0x8_0000_0000;
    assert Bit(42) == 0x400_0000_0000;
    assert Bit(49) == 0x2_0000_0000_0000;
    assert Bit(56) == 0x100_0000_0000_0000;
  }

  lemma BitIsSet(b: nat)
    requires b < 64
    ensures Bit(b) != 0
  {
    LastBit();
    if Bit(b) == 0 {
      ZeroStays(b, 63 - b);
    }
  }

  /** Setting a bit sets that bit and no other. */
  lemma SetOneBit(w: bv64, b: nat, c: nat)
    requires b < 64 && c < 64
    ensures GetBit(Or(w, Bit(b)), c) <==> b == c || GetBit(w, c)
  {
    hide And, Or, Bit;
    if b == c {
      BitIsSet(b);
      OrSelf(w, Bit(b));
    } else {
      if b < c {
        BitsDiffer(b, c);
      } else {
        BitsDiffer(c, b);
        AndCommutes(Bit(b), Bit(c));
      }
      OrOther(w, Bit(b), Bit(c));
    }
  }

  lemma OrSelf(w: bv64, x: bv64)
    ensures And(Or(w, x), x) == x
  {
  }

  lemma AndCommutes(x: bv64, y: bv64)
    ensures And(x, y) == And(y, x)
  {
  }

  lemma OrOther(w: bv64, x: bv64, y: bv64)
    requires And(x, y) == 0
    ensures And(Or(w, x), y) == And(w, y)
  {
  }

  lemma NoBits(b: nat)
    ensures !GetBit(0, b)
  {
  }

  // ---- runs of granules ----

  function Range(start: nat, n: nat): (r: set<nat>)
    ensures forall i: nat :: i in r <==> start <= i < start + n
  {
    if n == 0 then {} else Range(start, n - 1) + {start + n - 1}
  }

  predicate Free(used: set<nat>, start: nat, n: nat) { forall i :: start <= i < start + n ==> i !in used }

  /** The lowest place where n granules fit below size. */
  predicate LowestFit(used: set<nat>, size: nat, start: nat, n: nat) {
    start + n <= size && Free(used, start, n) && forall s: nat :: s < start ==> !Free(used, s, n)
  }

  predicate Fits(used: set<nat>, size: nat, n: nat) { exists s: nat :: s + n <= size && Free(used, s, n) }

  function Granules(size0: nat): nat { ((if size0 == 0 then 1 else size0) + GRANULE - 1) / GRANULE }

  // ---- the bitmap as a value ----

  /** Blocks of words; a block that is not there is empty. */
  type Rows = seq<seq<bv64>>

  predicate GoodRows(rows: Rows) {
    |rows| == L1_SIZE && forall i :: 0 <= i < L1_SIZE ==> rows[i] == [] || |rows[i]| == L0_SIZE
  }

  function Pos1(idx: nat): nat { idx / BLOCK }
  function Pos0(idx: nat): (i: nat)
    ensures i < L0_SIZE
  {
    idx % BLOCK / WORD_BITS
  }
  function PosBit(idx: nat): (b: nat)
    ensures b < WORD_BITS
  {
    idx % BLOCK % WORD_BITS
  }

  predicate Has(rows: Rows, idx: nat)
    requires GoodRows(rows)
  {
    idx < MAX_GRANULES && rows[Pos1(idx)] != [] && GetBit(rows[Pos1(idx)][Pos0(idx)], PosBit(idx))
  }

  ghost function UsedIn(rows: Rows): set<nat>
    requires GoodRows(rows)
  {
    set idx | idx in Range(0, MAX_GRANULES) && Has(rows, idx)
  }

  function EmptyBlock(): seq<bv64> { seq(L0_SIZE, _ => 0) }

  function SetIn(rows: Rows, idx: nat): Rows
    requires GoodRows(rows) && idx < MAX_GRANULES
  {
    var row := if rows[Pos1(idx)] == [] then EmptyBlock() else rows[Pos1(idx)];
    rows[Pos1(idx) := row[Pos0(idx) := Or(row[Pos0(idx)], Bit(PosBit(idx)))]]
  }

  /** A granule is determined by its position. */
  lemma PosUnique(i: nat, j: nat)
    ensures Pos1(i) == Pos1(j) && Pos0(i) == Pos0(j) && PosBit(i) == PosBit(j) ==> i == j
  {
    assert i == BLOCK * Pos1(i) + WORD_BITS * Pos0(i) + PosBit(i);
    assert j == BLOCK * Pos1(j) + WORD_BITS * Pos0(j) + PosBit(j);
  }

  /** Setting one bit of the bitmap adds one granule. */
  lemma SetAdds(rows: Rows, idx: nat)
    requires GoodRows(rows) && idx < MAX_GRANULES
    ensures GoodRows(SetIn(rows, idx)) && UsedIn(SetIn(rows, idx)) == UsedIn(rows) + {idx}
  {
    hide Bit, Pos1, Pos0, PosBit, Range, GetBit;
    PosInRange(idx);
    var after := SetIn(rows, idx);
    forall j: nat | j < MAX_GRANULES
      ensures Has(after, j) <==> j == idx || Has(rows, j)
    {
      PosInRange(j);
      PosUnique(idx, j);
      NoBits(PosBit(j));
      if Pos1(j) == Pos1(idx) && Pos0(j) == Pos0(idx) {
        var row := if rows[Pos1(idx)] == [] then EmptyBlock() else rows[Pos1(idx)];
        SetOneBit(row[Pos0(idx)], PosBit(idx), PosBit(j));
      }
    }
  }

  lemma PosInRange(idx: nat)
    requires idx < MAX_GRANULES
    ensures Pos1(idx) < L1_SIZE
  {
  }

  // ---- the allocator ----

  class MemAlloc {
    /** Memory size in granules. */
    const size: nat
    const mem: array<array?<bv64>>
    /** The words of all blocks. */
    ghost var rows: Rows
    /** Allocations since memory was last given up, as start and length in granules. */
    ghost var live: seq<(nat, nat)>

    ghost function Blocks(): set<array<bv64>>
      reads this, mem
    {
      set i | 0 <= i < mem.Length && mem[i] != null :: mem[i]
    }

    ghost predicate Shape()
      reads this, mem, Blocks()
    {
      && mem.Length == L1_SIZE && size <= MAX_GRANULES && size % BLOCK == 0 && GoodRows(rows)
      && (forall i :: 0 <= i < L1_SIZE ==>
            if mem[i] == null then rows[i] == []
            else mem[i].Length == L0_SIZE && rows[i] == mem[i][..] && (mem[i] as object) != (mem as object))
      && (forall i, j :: 0 <= i < j < L1_SIZE && mem[i] != null ==> mem[i] != mem[j])
    }

    ghost function Used(): set<nat>
      requires GoodRows(rows)
      reads this
    {
      UsedIn(rows)
    }

    /** Used granules lie in memory; live allocations lie in it too and do not overlap. */
    ghost predicate Valid()
      reads this, mem, Blocks()
    {
      Shape() && Used() <= Range(0, size) && LiveOk(live, Used())
    }

    constructor (totalMemSize: nat)
      requires totalMemSize <= MAX_GRANULES * GRANULE && totalMemSize % (BLOCK * GRANULE) == 0
      ensures Valid() && fresh(mem) && fresh(Blocks()) && size * GRANULE == totalMemSize && Used() == {} && live == []
    {
      size := totalMemSize / GRANULE;
      var block := new bv64[L0_SIZE](_ => 0);
      mem := new array?<bv64>[L1_SIZE](i => if i == 0 then block else null);
      rows := seq(L1_SIZE, i => if i == 0 then EmptyBlock() else []);
      live := [];
      new;
      assert block[..] == EmptyBlock();
      EmptyRows(rows);
    }

    method Set(idx: nat)
      requires Shape() && idx < MAX_GRANULES
      modifies this`rows, mem, Blocks()
      ensures Shape() && rows == SetIn(old(rows), idx) && fresh(Blocks() - old(Blocks()))
    {
      PosInRange(idx);
      var i1, i0 := Pos1(idx), Pos0(idx);
      if mem[i1] == null {
        var block := new bv64[L0_SIZE](_ => 0);
        assert forall j :: 0 <= j < L1_SIZE ==> mem[j] != block;
        mem[i1] := block;
        assert block[..] == EmptyBlock();
        rows := rows[i1 := EmptyBlock()];
      }
      var row := mem[i1];
      row[i0] := Or(row[i0], Bit(PosBit(idx)));
      rows := rows[i1 := row[..]];
    }

    method Get(idx: nat) returns (b: bool)
      requires Shape() && idx < MAX_GRANULES
      ensures b == (idx in Used())
    {
      PosInRange(idx);
      var i1 := Pos1(idx);
      if mem[i1] == null {
        return false;
      }
      return GetBit(mem[i1][Pos0(idx)], PosBit(idx));
    }

    /** Marks the granules that the given bytes touch. */
    method NoteAlloc(addr0: nat, size0: nat)
      requires Valid() && addr0 + size0 <= size * GRANULE
      modifies this`rows, mem, Blocks()
      ensures Valid() && fresh(Blocks() - old(Blocks()))
      ensures var addr := addr0 / GRANULE;
        Used() == old(Used()) + Range(addr, (addr0 + size0 + GRANULE - 1) / GRANULE - addr)
    {
      hide UsedIn, SetIn, Range;
      var addr := addr0 / GRANULE;
      var n := (addr0 + size0 + GRANULE - 1) / GRANULE - addr;
      RangeNext(addr, 0);
      for i := 0 to n
        invariant Shape() && Used() == old(Used()) + Range(addr, i) && fresh(Blocks() - old(Blocks()))
      {
        SetAdds(rows, addr + i);
        Set(addr + i);
        RangeNext(addr, i);
      }
      RangeWithin(addr, n, size);
      LiveMore(live, old(Used()), Used());
    }

    /** Forgets all allocations. */
    method Bankruptcy()
      requires Valid()
      modifies this`rows, this`live, Blocks()
      ensures Valid() && Used() == {} && live == [] && Blocks() == old(Blocks())
    {
      for i1 := 0 to size / BLOCK
        invariant Shape() && Blocks() == old(Blocks()) && live == old(live)
        invariant forall i :: 0 <= i < L1_SIZE ==> rows[i] == if i < i1 && old(rows)[i] != [] then EmptyBlock()
          else old(rows)[i]
      {
        if mem[i1] != null {
          var block := mem[i1];
          assert block in Blocks();
          for i0 := 0 to L0_SIZE
            modifies block
            invariant forall k :: 0 <= k < i0 ==> block[k] == 0
          {
            block[i0] := 0;
          }
          assert block[..] == EmptyBlock();
          rows := rows[i1 := EmptyBlock()];
        }
      }
      live := [];
      ClearedRows(old(rows), rows, size);
    }

    /** Is the run of n granules at start free? */
    method IsEmpty(start: nat, n: nat) returns (empty: bool)
      requires Valid() && start + n <= size
      ensures empty == Free(Used(), start, n)
    {
      hide UsedIn, LiveOk, Range;
      for i := 0 to n
        invariant Free(Used(), start, i)
      {
        var taken := Get(start + i);
        if taken {
          return false;
        }
      }
      return true;
    }

    /** Allocates the lowest free run that fits. If none does, all memory is given up and the search
        repeated; the repeated search finds the start of memory, so there is no second repetition. */
    method Alloc(size0: nat) returns (addr: nat, ghost retries: nat)
      requires Valid() && Granules(size0) <= size
      modifies this`rows, this`live, mem, Blocks()
      ensures Valid() && fresh(Blocks() - old(Blocks())) && addr % GRANULE == 0
      ensures var n, start := Granules(size0), addr / GRANULE;
        if Fits(old(Used()), size, n)
        then retries == 0 && LowestFit(old(Used()), size, start, n) && Used() == old(Used()) + Range(start, n)
          && live == old(live) + [(start, n)]
        else retries == 1 && start == 0 && Used() == Range(0, n) && live == [(0, n)]
      decreases if Fits(Used(), size, Granules(size0)) then 0 else 1
    {
      hide UsedIn, Range, LiveOk, Free, GoodRows, LowestFit, Fits;
      var bytes := if size0 == 0 then 1 else size0;
      var n := (bytes + GRANULE - 1) / GRANULE;
      var start, found := Find(n);
      if found {
        FitIsFree(Used(), size, start, n);
        addr := start * GRANULE;
        LiveAppend(live, Used(), start, n);
        GranulesOf(start, bytes);
        NoteAlloc(addr, bytes);
        live := live + [(start, n)];
        retries := 0;
        return;
      }
      Bankruptcy();
      EmptyFits(size, n);
      ghost var again;
      addr, again := Alloc(size0);
      FirstFit(size, addr / GRANULE, n);
      assert [] + [(0, n)] == [(0, n)];
      assert {} + Range(0, n) == Range(0, n);
      retries := again + 1;
    }

    /** The lowest free run of n granules, if there is one. */
    method Find(n: nat) returns (start: nat, found: bool)
      requires Valid() && n <= size
      ensures found == Fits(Used(), size, n)
      ensures found ==> LowestFit(Used(), size, start, n)
    {
      hide UsedIn, Range, LiveOk, GoodRows;
      start := 0;
      while start <= size - n
        invariant start <= size - n + 1 && forall s: nat :: s < start ==> !Free(Used(), s, n)
        decreases size - n - start
      {
        var empty := IsEmpty(start, n);
        if empty {
          return start, true;
        }
        start := start + 1;
      }
      return 0, false;
    }
  }

  lemma FitIsFree(used: set<nat>, size: nat, start: nat, n: nat)
    requires LowestFit(used, size, start, n)
    ensures Free(used, start, n) && start + n <= size
  {
  }

  lemma EmptyFits(size: nat, n: nat)
    requires n <= size
    ensures Fits({}, size, n)
  {
    assert Free({}, 0, n);
  }

  lemma LiveAppend(live: seq<(nat, nat)>, used: set<nat>, start: nat, n: nat)
    requires LiveOk(live, used) && Free(used, start, n)
    ensures LiveOk(live + [(start, n)], used + Range(start, n))
  {
    assert used !! Range(start, n);
  }

  lemma GranulesOf(start: nat, bytes: nat)
    ensures start * GRANULE / GRANULE == start
    ensures (start * GRANULE + bytes + GRANULE - 1) / GRANULE - start == (bytes + GRANULE - 1) / GRANULE
  {
  }

  lemma FirstFit(size: nat, start: nat, n: nat)
    requires LowestFit({}, size, start, n)
    ensures start == 0
  {
    assert Free({}, 0, n);
  }

  ghost predicate LiveOk(live: seq<(nat, nat)>, used: set<nat>) {
    && (forall k :: 0 <= k < |live| ==> Range(live[k].0, live[k].1) <= used)
    && (forall k, l :: 0 <= k < l < |live| ==> Range(live[k].0, live[k].1) !! Range(live[l].0, live[l].1))
  }

  lemma LiveMore(live: seq<(nat, nat)>, used: set<nat>, more: set<nat>)
    requires LiveOk(live, used) && used <= more
    ensures LiveOk(live, more)
  {
  }

  lemma RangeNext(start: nat, n: nat)
    ensures Range(start, 0) == {} && Range(start, n + 1) == Range(start, n) + {start + n}
  {
  }

  lemma RangeWithin(start: nat, n: nat, size: nat)
    requires start + n <= size
    ensures Range(start, n) <= Range(0, size)
  {
  }

  lemma EmptyRows(rows: Rows)
    requires GoodRows(rows) && forall i :: 0 <= i < L1_SIZE ==> rows[i] == [] || rows[i] == EmptyBlock()
    ensures UsedIn(rows) == {}
  {
    hide Bit, GetBit, Range;
    forall idx: nat | idx < MAX_GRANULES
      ensures !Has(rows, idx)
    {
      PosInRange(idx);
      NoBits(PosBit(idx));
    }
  }

  /** Clearing the blocks of memory clears every used granule. */
  lemma ClearedRows(before: Rows, after: Rows, size: nat)
    requires GoodRows(before) && GoodRows(after) && size <= MAX_GRANULES && size % BLOCK == 0
      && UsedIn(before) <= Range(0, size)
    requires forall i :: 0 <= i < L1_SIZE ==> after[i] == if i < size / BLOCK && before[i] != [] then EmptyBlock()
      else before[i]
    ensures UsedIn(after) == {}
  {
    hide Bit, GetBit;
    forall idx: nat | idx < MAX_GRANULES
      ensures !Has(after, idx)
    {
      PosInRange(idx);
      NoBits(PosBit(idx));
      if idx >= size {
        assert Pos1(idx) >= size / BLOCK;
        assert idx !in UsedIn(before);
        assert idx in Range(0, MAX_GRANULES);
      }
    }
  }
}
