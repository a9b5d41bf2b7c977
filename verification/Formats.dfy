/** What the binary formats of numbers mean, in terms of positional notation only: the bytes of a stored
    number are read back to the number, byte by byte for binary formats and digit by digit for text. */
module Formats {
  import opened ProgTypes
  import opened Numbers
  import opened ExecFormat
  import opened ExecCompile
  import Memory

  function Pow(base: nat, n: nat): nat { if n == 0 then 1 else Pow(base, n - 1) * base }

  /** Bytes as characters. */
  function Text(s: seq<byte>): (t: string)
    ensures |t| == |s|
  {
    seq(|s|, i requires 0 <= i < |s| => s[i] as char)
  }

  /** A decimal or lower-case hexadecimal digit. */
  predicate Digit(b: byte) { '0' as int <= b <= '9' as int || 'a' as int <= b <= 'f' as int }

  lemma DivBound(v: nat, base: nat, p: nat)
    requires base > 0 && v < p * base
    ensures v / base < p && v == v / base * base + v % base
  {
    DivIs(v / base, base, v % base);
  }

  lemma OneMore(high: string, h: nat, d: nat, base: nat)
    requires 2 <= base <= 16 && d < base && Value(high, base) == Some(h)
    ensures Value(high + [Memory.DigitChar(d) as char], base) == Some(h * base + d) && Digit(Memory.DigitChar(d))
  {
    var s := high + [Memory.DigitChar(d) as char];
    assert s[..|s| - 1] == high;
  }

  /** The digits of a number are those of its high part and its last digit. */
  lemma HighPart(v: nat, base: nat, width: nat) returns (h: nat, d: nat)
    requires 2 <= base <= 16 && width > 0 && v < Pow(base, width)
    ensures h < Pow(base, width - 1) && d < base && v == h * base + d
    ensures Memory.Digits(v, base, width) == Memory.Digits(h, base, width - 1) + [Memory.DigitChar(d)]
  {
    h, d := v / base, v % base;
    DivBound(v, base, Pow(base, width - 1));
  }

  lemma OneMoreDigit(v: nat, h: nat, d: nat, base: nat, high: seq<byte>)
    requires 2 <= base <= 16 && d < base && v == h * base + d && InBase(high, base, h)
    ensures InBase(high + [Memory.DigitChar(d)], base, v)
  {
    OneMore(Text(high), h, d, base);
    hide Value, Memory.DigitChar;
    var c := Memory.DigitChar(d);
    assert Text(high + [c]) == Text(high) + [c as char];
  }

  /** Digits padded with zeros are read back to the number. */
  lemma {:induction false} PaddedDigits(v: nat, base: nat, width: nat)
    requires 2 <= base <= 16 && v < Pow(base, width)
    ensures InBase(Memory.Digits(v, base, width), base, v)
    decreases width
  {
    if width == 0 {
      assert Text([]) == [] && v == 0 && Memory.Digits(v, base, width) == [];
    } else {
      hide Pow, InBase, Memory.Digits, Memory.DigitChar;
      var h, d := HighPart(v, base, width);
      PaddedDigits(h, base, width - 1);
      OneMoreDigit(v, h, d, base, Memory.Digits(h, base, width - 1));
    }
  }

  lemma Widths()
    ensures TWO64 <= Pow(10, 20) && TWO64 == Pow(16, 16) && TWO64 <= Pow(8, 23)
  {
    assert Pow(10, 5) == 100000;
    assert Pow(10, 10) == 100000 * Pow(10, 5);
    assert Pow(10, 15) == 100000 * Pow(10, 10);
    assert Pow(10, 20) == 100000 * Pow(10, 15);
    assert Pow(16, 4) == 0x1_0000;
    assert Pow(16, 8) == 0x1_0000 * Pow(16, 4);
    assert Pow(16, 12) == 0x1_0000 * Pow(16, 8);
    assert Pow(16, 16) == 0x1_0000 * Pow(16, 12);
    assert Pow(8, 5) == 0x8000;
    assert Pow(8, 10) == 0x8000 * Pow(8, 5);
    assert Pow(8, 15) == 0x8000 * Pow(8, 10);
    assert Pow(8, 20) == 0x8000 * Pow(8, 15);
    assert Pow(8, 23) == 512 * Pow(8, 20);
  }

  lemma DivDiv(v: nat, p: nat)
    requires p > 0
    ensures v / 256 / p == v / (256 * p)
  {
    var h, l := v / 256, v % 256;
    var q, r := h / p, h % p;
    assert v == 256 * h + l && h == q * p + r;
    assert v == q * (256 * p) + (256 * r + l);
    assert 256 * r + l < 256 * p;
    DivIs(q, 256 * p, 256 * r + l);
  }

  lemma {:induction false} LowByteAt(v: nat, n: nat, k: nat)
    requires k < n
    ensures LE(v, n)[k] == v / Pow256(k) % 256
  {
    if k > 0 {
      LowByteAt(v / 256, n - 1, k - 1);
      DivDiv(v, Pow256(k - 1));
    }
  }

  /** What bytes say in each format: least significant byte first, most significant byte first, 20 decimal digits,
      "0x" and 16 hexadecimal digits, or 23 octal digits. */
  ghost predicate Says(f: Format, s: seq<byte>, v: nat) {
    match f
    case FormatNative => forall k :: 0 <= k < |s| ==> s[k] == v / Pow256(k) % 256
    case FormatBigEndian => forall k :: 0 <= k < |s| ==> s[|s| - 1 - k] == v / Pow256(k) % 256
    case FormatStrDec => |s| == 20 && InBase(s, 10, v)
    case FormatStrHex => |s| == 18 && s[0] == '0' as int && s[1] == 'x' as int && InBase(s[2..], 16, v)
    case FormatStrOct => |s| == 23 && InBase(s, 8, v)
  }

  ghost predicate InBase(s: seq<byte>, base: nat, v: nat) {
    Value(Text(s), base) == Some(v) && forall i :: 0 <= i < |s| ==> Digit(s[i])
  }

  lemma BinaryMeans(v: u64, size: nat)
    ensures Says(FormatNative, LE(v, size), v) && Says(FormatBigEndian, Memory.Reverse(LE(v, size)), v)
  {
    forall k | 0 <= k < size
      ensures LE(v, size)[k] == v / Pow256(k) % 256
    {
      LowByteAt(v, size, k);
    }
  }

  lemma TextMeans(v: u64)
    ensures InBase(Memory.Digits(v, 10, 20), 10, v) && InBase(Memory.Digits(v, 16, 16), 16, v)
      && InBase(Memory.Digits(v, 8, 23), 8, v)
  {
    Widths();
    hide Pow, Memory.Digits, Value, InBase;
    PaddedDigits(v, 10, 20);
    PaddedDigits(v, 16, 16);
    PaddedDigits(v, 8, 23);
  }

  /** The bytes of a 64-bit number in each format have the declared size and say the number. */
  lemma FormatMeans(f: Format, v: u64, size: nat)
    requires Memory.GoodSize(FormatCode(f), size)
    ensures var s := Memory.CodeBytes(FormatCode(f), v, size); |s| == size && Says(f, s, v)
  {
    Memory.CodeBytesSize(FormatCode(f), v, size);
    BinaryMeans(v, size);
    TextMeans(v);
    hide InBase, Memory.Digits, LE, Memory.Reverse, Pow256;
    assert ([48, 120] + Memory.Digits(v, 16, 16))[2..] == Memory.Digits(v, 16, 16);
  }

  /** A number of the given format that the executor copies in for a process: the bytes at the address say the
      value plus the stride of the process, formatted text is followed by a NUL, and nothing else changes. */
  lemma CopiedNumber(m: Memory.Mem, pid: nat, at: u64, f: Format, v: u64, stride: u64, size: u64)
    requires Memory.GoodSize(FormatCode(f), size)
    ensures var m1 := Memory.CopyinMem(m, pid, Copyin(at, Const(size, FormatCode(f), v, 0, 0, stride)));
      var text := f == FormatStrDec || f == FormatStrHex || f == FormatStrOct;
      && Says(f, Memory.Load(m1, at, size), Wrap64(v + stride * pid))
      && (text ==> Memory.Get(m1, at + size) == 0)
      && forall x: int :: !(at <= x < at + size) && !(text && x == at + size) ==> Memory.Get(m1, x) == Memory.Get(m, x)
  {
    var w := Wrap64(v + stride * pid);
    CopyinStores(m, pid, at, FormatCode(f), v, stride, size, w);
    hide Memory.CodeBytes, Says, Memory.Store, Memory.Load, Memory.Get, Memory.CopyinMem, Wrap64, Memory.GoodSize;
    StoredNumber(m, at, f, w, size);
  }

  lemma CopyinStores(m: Memory.Mem, pid: nat, at: u64, code: u64, v: u64, stride: u64, size: u64, w: u64)
    requires w == Wrap64(v + stride * pid)
    ensures Memory.CopyinMem(m, pid, Copyin(at, Const(size, code, v, 0, 0, stride))) ==
            Memory.Store(m, at, Memory.CodeBytes(code, w, size) + if Memory.IsText(code) then [0] else [])
  {
    hide Memory.CodeBytes, Memory.Store, Wrap64, Memory.SetBits, Memory.Load;
  }

  lemma StoredNumber(m: Memory.Mem, at: u64, f: Format, w: u64, size: u64)
    requires Memory.GoodSize(FormatCode(f), size)
    ensures var text := Memory.IsText(FormatCode(f));
      var m1 := Memory.Store(m, at, Memory.CodeBytes(FormatCode(f), w, size) + if text then [0] else []);
      && (text <==> f == FormatStrDec || f == FormatStrHex || f == FormatStrOct)
      && Says(f, Memory.Load(m1, at, size), w) && (text ==> Memory.Get(m1, at + size) == 0)
      && forall x: int :: !(at <= x < at + size) && !(text && x == at + size) ==> Memory.Get(m1, x) == Memory.Get(m, x)
  {
    FormatMeans(f, w, size);
    hide Memory.CodeBytes, Says;
    var s, text := Memory.CodeBytes(FormatCode(f), w, size), Memory.IsText(FormatCode(f));
    var m1 := Memory.Store(m, at, s + if text then [0] else []);
    assert Memory.Load(m1, at, size) == s;
  }
}
