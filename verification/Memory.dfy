/** What the executor's copyin instructions do to memory, bit by bit. */
module Memory {
  import opened ProgTypes
  import opened ExecFormat
  import opened ExecCompile
  import opened ExecMeaning

  /** Memory; what was never stored is zero. */
  type Mem = map<int, byte>

  function Get(m: Mem, x: int): byte { if x in m then m[x] else 0 }

  function Store(m: Mem, addr: int, s: seq<byte>): (m': Mem)
    ensures forall x :: Get(m', x) == if addr <= x < addr + |s| then s[x - addr] else Get(m, x)
    decreases s
  {
    if s == [] then m else Store(m[addr := s[0]], addr + 1, s[1..])
  }

  function Load(m: Mem, addr: int, n: nat): (s: seq<byte>)
    ensures |s| == n
  {
    seq<byte>(n, i => Get(m, addr + i))
  }

  // ---- values as bytes ----

  function Reverse(s: seq<byte>): (r: seq<byte>)
    ensures |r| == |s| && forall i :: 0 <= i < |s| ==> r[i] == s[|s| - 1 - i]
  {
    seq(|s|, i requires 0 <= i < |s| => s[|s| - 1 - i])
  }

  function DigitChar(d: nat): byte
    requires d < 16
  {
    if d < 10 then 48 + d else 87 + d
  }

  /** The number in the given base, padded with zeros to the given width. */
  function Digits(v: nat, base: nat, width: nat): (s: seq<byte>)
    requires 2 <= base <= 16
    ensures |s| == width
  {
    if width == 0 then [] else Digits(v / base, base, width - 1) + [DigitChar(v % base)]
  }

  /** A value in the binary format with the given code: native, big-endian, decimal, hexadecimal or
      octal text. */
  function CodeBytes(code: u64, v: nat, size: nat): seq<byte> {
    if code == 0 then LE(v, size)
    else if code == 1 then Reverse(LE(v, size))
    else if code == 2 then Digits(v, 10, 20)
    else if code == 3 then [48, 120] + Digits(v, 16, 16)
    else Digits(v, 8, 23)
  }

  /** The sizes that the executor accepts for a format. */
  predicate GoodSize(code: u64, size: nat) {
    if code == 0 then size == 1 || size == 2 || size == 4 || size == 8
    else if code == 1 then size == 2 || size == 4 || size == 8
    else if code == 2 then size == 20
    else if code == 3 then size == 18
    else code == 4 && size == 23
  }

  lemma CodeBytesSize(code: u64, v: nat, size: nat)
    requires GoodSize(code, size)
    ensures |CodeBytes(code, v, size)| == size
  {
  }

  function Pow2(n: nat): (p: nat)
    ensures p > 0
  {
    if n == 0 then 1 else 2 * Pow2(n - 1)
  }

  /** x with its bits off..off+len replaced by the low bits of v. */
  function SetBits(x: nat, v: nat, off: nat, len: nat): int {
    x - x / Pow2(off) % Pow2(len) * Pow2(off) + v % Pow2(len) * Pow2(off)
  }

  // ---- executing copyins ----

  function Ordered(code: u64, s: seq<byte>): seq<byte> { if code == 1 then Reverse(s) else s }

  /** Numbers formatted as text are stored with a terminating NUL. */
  predicate IsText(code: u64) { code != 0 && code != 1 }

  /** One copyin by process pid. Checksums are not part of this model and leave memory alone. */
  function CopyinMem(m: Mem, pid: nat, c: Copyin): Mem {
    match c.arg
    case Const(size, code, value, bfOff, bfLen, stride) =>
      var v := Wrap64(value + stride * pid);
      if bfOff == 0 && bfLen == 0 then Store(m, c.addr, CodeBytes(code, v, size) + if IsText(code) then [0] else [])
      else
        var x := FromLE(Ordered(code, Load(m, c.addr, size)));
        var y := SetBits(x, v, bfOff, bfLen);
        Store(m, c.addr, Ordered(code, LE(if y >= 0 then y else 0, size)))
    case Data(data, _) => Store(m, c.addr, data)
    case _ => m
  }

  function CopyinsMem(m: Mem, pid: nat, cs: seq<Copyin>): Mem
    decreases cs
  {
    if cs == [] then m else CopyinsMem(CopyinMem(m, pid, cs[0]), pid, cs[1..])
  }

  // ---- bits ----

  /** Bit j of a number. */
  predicate BitOf(v: nat, j: nat) { if j == 0 then v % 2 == 1 else BitOf(v / 2, j - 1) }

  /** Bit y of memory: eight to a byte, the lowest first. */
  predicate GetBit(m: Mem, y: int) { BitOf(Get(m, y / 8), y % 8) }

  function Ints(lo: int, n: nat): (r: set<int>)
    ensures forall i: int :: i in r <==> lo <= i < lo + n
  {
    if n == 0 then {} else Ints(lo, n - 1) + {lo + n - 1}
  }

  /** The bits of n bytes at an address. */
  function ByteBits(at: int, n: nat): (r: set<int>)
    ensures forall y: int :: y in r <==> 8 * at <= y < 8 * (at + n)
  {
    Ints(8 * at, 8 * n)
  }

  /** The bits that something sets, and to what. */
  type Effect = map<int, bool>

  /** Bytes stored at an address. */
  function BytesEffect(at: int, s: seq<byte>): (e: Effect)
    ensures e.Keys == ByteBits(at, |s|)
  {
    var bits := ByteBits(at, |s|);
    map y | y in bits :: BitOf(s[y / 8 - at], y % 8)
  }

  /** Which bit of a number of the given size, stored at an address, is bit y of memory. */
  function NumberBit(at: int, size: nat, big: bool, y: int): int {
    if big then 8 * (at + size - 1 - y / 8) + y % 8 else y - 8 * at
  }

  /** Where the bits off..off+len of a stored number lie. */
  function FieldBits(at: int, size: nat, big: bool, off: nat, len: nat): (bits: set<int>)
    ensures forall y :: y in bits <==> y in ByteBits(at, size) && off <= NumberBit(at, size, big, y) < off + len
  {
    var unit := ByteBits(at, size);
    set y | y in unit && off <= NumberBit(at, size, big, y) < off + len
  }

  /** The low len bits of v stored in bits off..off+len of a number. */
  function FieldEffect(at: int, size: nat, big: bool, off: nat, len: nat, v: nat): (e: Effect)
    ensures e.Keys == FieldBits(at, size, big, off, len)
  {
    var bits := FieldBits(at, size, big, off, len);
    map y | y in bits :: BitOf(v, NumberBit(at, size, big, y) - off)
  }

  /** m1 is m with the bits of e set. */
  ghost predicate Applied(m: Mem, e: Effect, m1: Mem) {
    forall y: int :: GetBit(m1, y) == if y in e then e[y] else GetBit(m, y)
  }

  lemma AppliedTwice(m: Mem, e: Effect, m1: Mem, e1: Effect, m2: Mem)
    requires Applied(m, e, m1) && Applied(m1, e1, m2)
    ensures Applied(m, e + e1, m2)
  {
  }

  lemma StoreApplies(m: Mem, at: int, s: seq<byte>)
    ensures Applied(m, BytesEffect(at, s), Store(m, at, s))
  {
    hide Ints;
    var e, m1 := BytesEffect(at, s), Store(m, at, s);
    forall y: int
      ensures GetBit(m1, y) == if y in e then e[y] else GetBit(m, y)
    {
      assert y in e <==> at <= y / 8 < at + |s|;
    }
  }

  lemma BytesCat(at: int, s: seq<byte>, t: seq<byte>)
    ensures BytesEffect(at, s + t) == BytesEffect(at, s) + BytesEffect(at + |s|, t)
  {
    hide Ints, BitOf;
    var left, right := BytesEffect(at, s + t), BytesEffect(at, s) + BytesEffect(at + |s|, t);
    forall y: int
      ensures (y in left <==> y in right) && (y in left ==> left[y] == right[y])
    {
      if 8 * at <= y < 8 * (at + |s|) {
        assert (s + t)[y / 8 - at] == s[y / 8 - at];
      } else if 8 * (at + |s|) <= y < 8 * (at + |s| + |t|) {
        assert (s + t)[y / 8 - at] == t[y / 8 - (at + |s|)];
      }
    }
  }

  // ---- bits of sums ----

  lemma HalfSum(a: nat, p: nat, k: nat)
    ensures (a + 2 * p * k) % 2 == a % 2 && (a + 2 * p * k) / 2 == a / 2 + p * k
  {
    var q := p * k;
    assert 2 * p * k == 2 * q;
  }

  /** Bits below a multiple of a power of two. */
  lemma {:induction false} BitLow(a: nat, off: nat, k: nat, j: nat)
    requires j < off
    ensures BitOf(a + Pow2(off) * k, j) == BitOf(a, j)
    decreases j
  {
    HalfSum(a, Pow2(off - 1), k);
    if j > 0 {
      BitLow(a / 2, off - 1, k, j - 1);
    }
  }

  /** Bits of the multiple itself. */
  lemma {:induction false} BitHigh(a: nat, off: nat, k: nat, j: nat)
    requires a < Pow2(off)
    ensures BitOf(a + Pow2(off) * k, off + j) == BitOf(k, j)
    decreases off
  {
    if off > 0 {
      HalfSum(a, Pow2(off - 1), k);
      assert a / 2 < Pow2(off - 1);
      BitHigh(a / 2, off - 1, k, j);
    }
  }

  lemma DivMod(x: nat, p: nat)
    requires p > 0
    ensures x == x % p + p * (x / p) && x % p < p
  {
  }

  lemma Distribute(p: nat, b: nat, q: nat, c: nat)
    ensures p * (b + q * c) == p * b + p * (q * c)
  {
  }

  lemma SetBitsParts(x: nat, v: nat, off: nat, len: nat) returns (a: nat, b: nat, c: nat)
    ensures a < Pow2(off) && b < Pow2(len) && v % Pow2(len) < Pow2(len)
    ensures x == a + Pow2(off) * (b + Pow2(len) * c)
    ensures SetBits(x, v, off, len) == a + Pow2(off) * (v % Pow2(len) + Pow2(len) * c)
  {
    hide Pow2;
    var p, q := Pow2(off), Pow2(len);
    var h := x / p;
    a, b, c := x % p, h % q, h / q;
    DivMod(x, p);
    DivMod(h, q);
    DivMod(v, q);
    Distribute(p, h % q, q, h / q);
    Distribute(p, v % q, q, h / q);
    assert h % q * p == p * (h % q);
    assert v % q * p == p * (v % q);
  }

  /** Bits of a number in three parts: below off, the next len, and the rest. */
  lemma ThreeParts(a: nat, off: nat, b: nat, len: nat, c: nat, j: nat)
    requires a < Pow2(off) && b < Pow2(len)
    ensures BitOf(a + Pow2(off) * (b + Pow2(len) * c), j) ==
            if j < off then BitOf(a, j) else if j < off + len then BitOf(b, j - off) else BitOf(c, j - off - len)
  {
    hide Pow2, BitOf;
    var k := b + Pow2(len) * c;
    if j < off {
      BitLow(a, off, k, j);
    } else {
      BitHigh(a, off, k, j - off);
      if j < off + len {
        BitLow(b, len, c, j - off);
      } else {
        BitHigh(b, len, c, j - off - len);
      }
    }
  }

  lemma LowBits(v: nat, len: nat, j: nat)
    requires j < len
    ensures BitOf(v % Pow2(len), j) == BitOf(v, j)
  {
    hide Pow2, BitOf;
    DivMod(v, Pow2(len));
    BitLow(v % Pow2(len), len, v / Pow2(len), j);
  }

  /** Setting a field changes exactly its bits. */
  lemma SetBitsBit(x: nat, v: nat, off: nat, len: nat, j: nat)
    ensures SetBits(x, v, off, len) >= 0
    ensures BitOf(SetBits(x, v, off, len), j) == if off <= j < off + len then BitOf(v, j - off) else BitOf(x, j)
  {
    hide Pow2, SetBits, BitOf;
    var a, b, c := SetBitsParts(x, v, off, len);
    ThreeParts(a, off, b, len, c, j);
    ThreeParts(a, off, v % Pow2(len), len, c, j);
    if off <= j < off + len {
      LowBits(v, len, j - off);
    }
  }

  /** The bytes of a number hold its bits. */
  lemma {:induction false} BytesHoldBits(v: nat, n: nat, i: nat, k: nat)
    requires i < n && k < 8
    ensures BitOf(LE(v, n)[i], k) == BitOf(v, 8 * i + k)
    decreases n
  {
    DivMod(v, 256);
    assert Pow2(8) == 256;
    if i == 0 {
      BitLow(v % 256, 8, v / 256, k);
    } else {
      BytesHoldBits(v / 256, n - 1, i - 1, k);
      BitHigh(v % 256, 8, v / 256, 8 * (i - 1) + k);
    }
  }

  lemma {:induction false} NumberHoldsBits(s: seq<byte>, i: nat, k: nat)
    requires i < |s| && k < 8
    ensures BitOf(FromLE(s), 8 * i + k) == BitOf(s[i], k)
    decreases s
  {
    assert Pow2(8) == 256;
    var rest := FromLE(s[1..]);
    if i == 0 {
      BitLow(s[0], 8, rest, k);
    } else {
      NumberHoldsBits(s[1..], i - 1, k);
      BitHigh(s[0], 8, rest, 8 * (i - 1) + k);
    }
  }

  /** Bytes in the order of a format. */
  lemma OrderedBytes(s: seq<byte>, big: bool, i: nat)
    requires i < |s|
    ensures var t := Ordered(if big then 1 else 0, s); |t| == |s| && t[i] == s[if big then |s| - 1 - i else i]
  {
  }

  lemma FieldBit(m: Mem, at: u64, size: u64, big: bool, value: nat, off: u64, len: u64, b: int)
    requires at <= b / 8 < at + size
    ensures var code := if big then 1 else 0;
      var y := SetBits(FromLE(Ordered(code, Load(m, at, size))), value, off, len);
      && y >= 0
      && var j := NumberBit(at, size, big, b);
      GetBit(Store(m, at, Ordered(code, LE(y, size))), b) ==
      if off <= j < off + len then BitOf(value, j - off) else GetBit(m, b)
  {
    hide BitOf, SetBits, FromLE, LE, Ordered;
    var code, s, i, k := if big then 1 else 0, Load(m, at, size), b / 8 - at, b % 8;
    var i' := if big then size - 1 - i else i;
    OrderedBytes(s, big, i');
    var t := Ordered(code, s);
    var x := FromLE(t);
    var y := SetBits(x, value, off, len);
    SetBitsBit(x, value, off, len, 8 * i' + k);
    BytesHoldBits(y, size, i', k);
    NumberHoldsBits(t, i', k);
    OrderedBytes(LE(y, size), big, i);
    assert 8 * i' + k == NumberBit(at, size, big, b) && t[i'] == s[i] == Get(m, b / 8);
  }

  /** A bitfield store sets the bits of its field, in either byte order, and leaves all others alone. */
  lemma FieldApplies(m: Mem, pid: nat, at: u64, size: u64, big: bool, value: u64, off: u64, len: u64, stride: u64)
    requires 0 < len < 64 && off + len <= 8 * size
    ensures Applied(m, FieldEffect(at, size, big, off, len, Wrap64(value + stride * pid)),
                    CopyinMem(m, pid, Copyin(at, Const(size, if big then 1 else 0, value, off, len, stride))))
  {
    hide Ints, BitOf, SetBits, FromLE, LE, GetBit, Ordered, NumberBit;
    var v, code := Wrap64(value + stride * pid), if big then 1 else 0;
    var e := FieldEffect(at, size, big, off, len, v);
    var m1 := CopyinMem(m, pid, Copyin(at, Const(size, code, value, off, len, stride)));
    var y := SetBits(FromLE(Ordered(code, Load(m, at, size))), v, off, len);
    FieldBit(m, at, size, big, v, off, len, 8 * at);
    var s := Ordered(code, LE(y, size));
    OrderedBytes(LE(y, size), big, 0);
    assert m1 == Store(m, at, s);
    forall b: int
      ensures GetBit(m1, b) == if b in e then e[b] else GetBit(m, b)
    {
      if at <= b / 8 < at + size {
        FieldBit(m, at, size, big, v, off, len, b);
      } else {
        Elsewhere(m, at, s, b);
      }
    }
  }

  lemma Elsewhere(m: Mem, at: int, s: seq<byte>, b: int)
    requires !(at <= b / 8 < at + |s|)
    ensures GetBit(Store(m, at, s), b) == GetBit(m, b)
  {
  }

  // ---- or ----

  /** Bitwise or. */
  function Or(a: nat, b: nat): nat {
    if a == 0 then b else if b == 0 then a else (if a % 2 == 1 || b % 2 == 1 then 1 else 0) + 2 * Or(a / 2, b / 2)
  }

  lemma {:induction false} ZeroBits(j: nat)
    ensures !BitOf(0, j)
  {
    if j > 0 {
      ZeroBits(j - 1);
    }
  }

  lemma OrHalf(a: nat, b: nat)
    requires a != 0 && b != 0
    ensures Or(a, b) / 2 == Or(a / 2, b / 2) && (Or(a, b) % 2 == 1 <==> a % 2 == 1 || b % 2 == 1)
  {
    var x, c := Or(a / 2, b / 2), if a % 2 == 1 || b % 2 == 1 then 1 else 0;
    assert Or(a, b) == c + 2 * x;
  }

  lemma {:induction false} OrBit(a: nat, b: nat, j: nat)
    ensures BitOf(Or(a, b), j) == (BitOf(a, j) || BitOf(b, j))
    decreases j
  {
    if a == 0 || b == 0 {
      ZeroBits(j);
    } else {
      hide Or;
      OrHalf(a, b);
      if j > 0 {
        OrBit(a / 2, b / 2, j - 1);
      }
    }
  }

  /** Or of numbers that share no bit is their sum. */
  lemma {:induction false} OrIsSum(a: nat, n: nat, k: nat)
    requires a < Pow2(n)
    ensures Or(a, Pow2(n) * k) == a + Pow2(n) * k
    decreases n
  {
    if n > 0 && a > 0 && k > 0 {
      HalfSum(a, Pow2(n - 1), k);
      HalfSum(0, Pow2(n - 1), k);
      OrIsSum(a / 2, n - 1, k);
      assert Pow2(n) * k > 0;
    }
  }

  /** A value shifted into a field. */
  function Field(v: nat, off: nat, len: nat): nat { v % Pow2(len) * Pow2(off) }

  lemma FieldHoldsBits(v: nat, off: nat, len: nat, j: nat)
    ensures BitOf(Field(v, off, len), j) == (off <= j < off + len && BitOf(v, j - off))
  {
    hide Pow2, BitOf;
    var b := v % Pow2(len);
    DivMod(v, Pow2(len));
    assert Field(v, off, len) == 0 + Pow2(off) * (b + Pow2(len) * 0);
    ThreeParts(0, off, b, len, 0, j);
    ZeroBits(j);
    if off <= j < off + len {
      LowBits(v, len, j - off);
    } else if j >= off + len {
      ZeroBits(j - off - len);
    }
  }
}
