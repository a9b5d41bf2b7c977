/** The Internet checksum as the executor computes it: a 32-bit accumulator of 16-bit words that is
    folded after every update. */
module Checksum {
  import ExecFormat

  type byte = ExecFormat.byte

  const TWO16: nat := 0x1_0000
  const TWO32: nat := 0x1_0000_0000

  function Word(lo: nat, hi: nat): nat { lo + 256 * hi }

  /** The sum of the little-endian 16-bit words; an odd last byte counts as a word. */
  function Sum(data: seq<byte>): nat {
    if data == [] then 0
    else if |data| == 1 then data[0]
    else Word(data[0], data[1]) + Sum(data[2..])
  }

  /** End-around carry: the one's complement sum of the 16-bit halves, until it fits 16 bits. */
  function Fold(v: nat): (r: nat)
    ensures r <= 0xffff
  {
    if v <= 0xffff then v else Fold(v % TWO16 + v / TWO16)
  }

  // ---- folding is arithmetic modulo 2^16 - 1 ----

  /** v modulo 2^16 - 1, with 0 represented by 2^16 - 1 unless v is 0 itself. */
  function Residue(v: nat): nat { if v == 0 then 0 else (v - 1) % 0xffff + 1 }

  lemma CarryKeepsResidue(v: nat)
    ensures Residue(v % TWO16 + v / TWO16) == Residue(v)
  {
    var lo, hi := v % TWO16, v / TWO16;
    assert v == lo + TWO16 * hi;
    if v > 0 {
      assert lo + hi > 0;
      assert v - 1 == (lo + hi - 1) + 0xffff * hi;
      AddMultiple(lo + hi - 1, hi);
    }
  }

  lemma AddMultiple(a: nat, k: nat)
    ensures (a + 0xffff * k) % 0xffff == a % 0xffff
  {
  }

  lemma {:induction false} FoldIsResidue(v: nat)
    ensures Fold(v) == Residue(v)
    decreases v
  {
    if v > 0xffff {
      CarryKeepsResidue(v);
      FoldIsResidue(v % TWO16 + v / TWO16);
    }
  }

  /** Folding early does not change the result. */
  lemma FoldTwice(a: nat, b: nat)
    ensures Fold(Fold(a) + b) == Fold(a + b)
  {
    FoldIsResidue(a);
    FoldIsResidue(Fold(a) + b);
    FoldIsResidue(a + b);
    if a > 0 {
      var r, q := (a - 1) % 0xffff, (a - 1) / 0xffff;
      assert a == r + 1 + 0xffff * q;
      AddMultiple(r + b, q);
    }
  }

  // ---- the accumulator ----

  lemma {:induction false} SumBound(data: seq<byte>)
    ensures Sum(data) <= 0xffff * ((|data| + 1) / 2)
  {
    if |data| > 1 {
      SumBound(data[2..]);
    }
  }

  function Wrap32(v: nat): nat { v % TWO32 }

  lemma NoWrap(v: nat)
    requires v < TWO32
    ensures Wrap32(v) == v
  {
  }

  lemma Fits(acc0: nat, data: seq<byte>)
    requires acc0 <= 0xffff && |data| <= 131072
    ensures acc0 + Sum(data) < TWO32
  {
    SumBound(data);
    assert (|data| + 1) / 2 <= 65536;
  }

  lemma SumAt(data: seq<byte>, i: nat)
    requires i < |data|
    ensures i + 1 < |data| ==> Sum(data[i..]) == Word(data[i], data[i + 1]) + Sum(data[i + 2..])
    ensures i + 1 == |data| ==> Sum(data[i..]) == data[i]
  {
    if i + 1 < |data| {
      assert data[i..][2..] == data[i + 2..];
    }
  }

  /** Adds the words of data to the 32-bit accumulator, which cannot overflow for up to 131072 bytes. */
  method AddWords(acc0: nat, data: seq<byte>) returns (acc: nat)
    requires acc0 <= 0xffff && 0 < |data| <= 131072
    ensures acc == acc0 + Sum(data)
  {
    hide Sum, Wrap32;
    Fits(acc0, data);
    acc := acc0;
    var i := 0;
    assert data[0..] == data;
    while i < |data| - 1
      invariant 0 <= i <= |data| && i % 2 == 0 && acc + Sum(data[i..]) == acc0 + Sum(data)
    {
      SumAt(data, i);
      var word := Word(data[i], data[i + 1]);
      NoWrap(acc + word);
      acc := Wrap32(acc + word);
      i := i + 2;
    }
    if |data| % 2 == 1 {
      SumAt(data, i);
      NoWrap(acc + data[|data| - 1]);
      acc := Wrap32(acc + data[|data| - 1]);
    } else {
      SumNothing(data, i);
    }
  }

  lemma SumNothing(data: seq<byte>, i: nat)
    requires i == |data|
    ensures Sum(data[i..]) == 0
  {
  }

  /** Adds data to an accumulator and folds it. */
  method Update(acc0: nat, data: seq<byte>) returns (acc: nat)
    requires acc0 <= 0xffff && |data| <= 131072
    ensures acc == Fold(acc0 + Sum(data)) && acc <= 0xffff
  {
    if |data| == 0 {
      return acc0;
    }
    acc := AddWords(acc0, data);
    while acc > 0xffff
      invariant Fold(acc) == Fold(acc0 + Sum(data))
    {
      acc := acc % TWO16 + acc / TWO16;
    }
  }

  /** The complement, cut to 16 bits. */
  function Digest(acc: nat): nat
    requires acc <= 0xffff
  {
    0xffff - acc
  }

  // ---- chunks ----

  /** All chunks but the last have even length, and each is small enough for one update. */
  predicate GoodChunks(chunks: seq<seq<byte>>) {
    forall i :: 0 <= i < |chunks| ==> |chunks[i]| <= 131072 && (i < |chunks| - 1 ==> |chunks[i]| % 2 == 0)
  }

  function Concat(chunks: seq<seq<byte>>): seq<byte> {
    if chunks == [] then [] else chunks[0] + Concat(chunks[1..])
  }

  lemma {:induction false} SumSplit(a: seq<byte>, b: seq<byte>)
    requires |a| % 2 == 0
    ensures Sum(a + b) == Sum(a) + Sum(b)
  {
    if a == [] {
      assert a + b == b;
    } else {
      SumSplit(a[2..], b);
      assert (a + b)[0] == a[0] && (a + b)[1] == a[1] && (a + b)[2..] == a[2..] + b;
    }
  }

  lemma {:induction false} SumConcat(chunks: seq<seq<byte>>)
    requires GoodChunks(chunks) && chunks != []
    ensures Sum(Concat(chunks)) == Sum(chunks[0]) + Sum(Concat(chunks[1..]))
  {
    if |chunks| == 1 {
      assert Concat(chunks[1..]) == [] && chunks[0] + [] == chunks[0];
    } else {
      SumSplit(chunks[0], Concat(chunks[1..]));
    }
  }

  /** An odd length counts as if a zero byte followed, as in section 4.1 of RFC 1071. */
  lemma {:induction false} OddIsPadded(data: seq<byte>)
    ensures Sum(data + [0]) == Sum(data)
  {
    if |data| > 1 {
      OddIsPadded(data[2..]);
      assert (data + [0])[2..] == data[2..] + [0];
    }
  }

  /** The checksum of chunks, however they are cut, is that of the whole. */
  method Accumulate(chunks: seq<seq<byte>>) returns (csum: nat)
    requires GoodChunks(chunks)
    ensures csum == Digest(Fold(Sum(Concat(chunks))))
  {
    hide Sum, Fold;
    var acc: nat := 0;
    assert chunks[0..] == chunks;
    for i := 0 to |chunks|
      invariant acc <= 0xffff && GoodChunks(chunks[i..])
        && Fold(acc + Sum(Concat(chunks[i..]))) == Fold(Sum(Concat(chunks)))
    {
      var rest := chunks[i..];
      assert rest[1..] == chunks[i + 1..];
      SumConcat(rest);
      ghost var before := acc;
      acc := Update(acc, chunks[i]);
      FoldTwice(before + Sum(chunks[i]), Sum(Concat(rest[1..])));
    }
    assert chunks[|chunks|..] == [];
    Folded(acc);
    csum := Digest(acc);
  }

  lemma Folded(acc: nat)
    requires acc <= 0xffff
    ensures Fold(acc + Sum(Concat([]))) == acc
  {
  }

  // ---- the stored checksum ----

  /** Data with the two bytes at `at` replaced by a 16-bit word. */
  function Stored(data: seq<byte>, at: nat, w: nat): seq<byte>
    requires at + 2 <= |data| && w <= 0xffff
  {
    data[at := w % 256][at + 1 := w / 256]
  }

  lemma {:induction false} SumStored(data: seq<byte>, at: nat, w: nat)
    requires at + 2 <= |data| && at % 2 == 0 && data[at] == 0 && data[at + 1] == 0 && w <= 0xffff
    ensures Sum(Stored(data, at, w)) == Sum(data) + w
  {
    var after := Stored(data, at, w);
    if at == 0 {
      assert after[2..] == data[2..];
    } else {
      SumStored(data[2..], at - 2, w);
      assert after[2..] == Stored(data[2..], at - 2, w);
    }
  }

  /** Storing the digest in a zeroed field at an even offset makes the whole sum fold to all ones,
      which is how a receiver checks it. */
  lemma StoredChecksumVerifies(data: seq<byte>, at: nat)
    requires at + 2 <= |data| && at % 2 == 0 && data[at] == 0 && data[at + 1] == 0
    ensures var csum := Digest(Fold(Sum(data)));
      Fold(Sum(Stored(data, at, csum))) == 0xffff && Digest(Fold(Sum(Stored(data, at, csum)))) == 0
  {
    hide Sum, Stored, Fold;
    var s := Sum(data);
    var csum := Digest(Fold(s));
    SumStored(data, at, csum);
    FoldTwice(s, csum);
    AllOnes();
  }

  lemma AllOnes()
    ensures Fold(0xffff) == 0xffff
  {
  }

  // ---- the bound on the length is exact ----

  function Ones(n: nat): seq<byte> { seq(2 * n, _ => 255) }

  lemma {:induction false} SumOnes(n: nat)
    ensures Sum(Ones(n)) == 0xffff * n
  {
    if n > 0 {
      SumOnes(n - 1);
      assert Ones(n)[2..] == Ones(n - 1);
    }
  }

  /** One word more can overflow the accumulator, which then loses a carry. */
  lemma LongerDataOverflows()
    ensures |Ones(65537)| == 131074 && Fold(Wrap32(1 + Sum(Ones(65537)))) != Fold(1 + Sum(Ones(65537)))
  {
    SumOnes(65537);
    FoldIsResidue(TWO32);
  }
}
