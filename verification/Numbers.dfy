/** Unsigned numbers in program text: the printer's "0x%x" and "%v" and the parser's base-0
    `ParseUint`, with the lemmas that each printed number is read back as itself. */
module Numbers {
  import opened ProgTypes

  function DigitChar(d: nat): (c: char)
    requires d < 16
  {
    if d < 10 then (d + '0' as int) as char else (d - 10 + 'a' as int) as char
  }

  /** Value of a digit character, upper or lower case; 99 for anything else. */
  function DigitValue(c: char): nat {
    if '0' <= c <= '9' then c as int - '0' as int
    else if 'a' <= c <= 'z' then c as int - 'a' as int + 10
    else if 'A' <= c <= 'Z' then c as int - 'A' as int + 10
    else 99
  }

  /** The digits of n without leading zeros; zero prints as one digit. */
  function Digits(n: nat, base: nat): string
    requires 2 <= base <= 16
  {
    if n < base then [DigitChar(n)] else Digits(n / base, base) + [DigitChar(n % base)]
  }

  function Hex(n: nat): string { "0x" + Digits(n, 16) }

  function Dec(n: nat): string { Digits(n, 10) }

  /** Value of a digit string read left to right (the last digit is folded in last), None when a
      character is not a digit of the base. */
  function Value(s: string, base: nat): Option<nat>
    decreases |s|
  {
    if s == [] then Some(0)
    else
      var high := Value(s[..|s| - 1], base);
      var d := DigitValue(s[|s| - 1]);
      if high.None? || d >= base then None else Some(high.value * base + d)
  }

  /** strconv.ParseUint(s, 0, 64): the base comes from the prefix, and 2^64 or more is an error. */
  function ParseUint(s: string): Option<u64> {
    var v :=
      if s == [] then None
      else if |s| > 1 && s[0] == '0' && (s[1] == 'x' || s[1] == 'X') then
        if |s| < 3 then None else Value(s[2..], 16)
      else if s[0] == '0' then Value(s[1..], 8)
      else Value(s, 10);
    if v.Some? && v.value < TWO64 then Some(v.value) else None
  }

  predicate IsIdentChar(c: char) {
    'a' <= c <= 'z' || 'A' <= c <= 'Z' || '0' <= c <= '9' || c == '_' || c == '$'
  }

  ghost predicate IsIdent(s: string) {
    s != [] && forall i :: 0 <= i < |s| ==> IsIdentChar(s[i])
  }

  lemma {:induction false} ValueOfDigits(n: nat, base: nat)
    requires 2 <= base <= 16
    ensures Value(Digits(n, base), base) == Some(n)
    ensures IsIdent(Digits(n, base))
    ensures n > 0 ==> Digits(n, base)[0] != '0'
    ensures forall i :: 0 <= i < |Digits(n, base)| ==> DigitValue(Digits(n, base)[i]) < base
    decreases n
  {
    var s := Digits(n, base);
    if n < base {
      assert s[..0] == [];
      assert s == [DigitChar(n)];
      assert Value(s[..0], base) == Some(0);
    } else {
      DivSmaller(n, base);
      ValueOfDigits(n / base, base);
      assert s[..|s| - 1] == Digits(n / base, base);
      assert s[|s| - 1] == DigitChar(n % base);
    }
  }

  lemma DivSmaller(n: nat, base: nat)
    requires 2 <= base <= n
    ensures 0 < n / base < n
    ensures (n / base) * base + n % base == n
  {
  }

  /** A printed hexadecimal word is an identifier token that reads back as itself. */
  lemma HexRoundTrip(v: u64)
    ensures ParseUint(Hex(v)) == Some(v)
    ensures IsIdent(Hex(v)) && Hex(v)[0] == '0'
  {
    ValueOfDigits(v, 16);
    assert Hex(v)[2..] == Digits(v, 16);
  }

  /** A printed decimal word is an identifier token that reads back as itself. */
  lemma DecRoundTrip(v: u64)
    ensures ParseUint(Dec(v)) == Some(v)
    ensures IsIdent(Dec(v))
  {
    ValueOfDigits(v, 10);
    if v == 0 {
      assert Dec(0) == "0";
      assert "0"[1..] == [];
    } else {
      assert DigitValue(Dec(v)[0]) < 10;
    }
  }

  /** A number behind a zero is octal, a prefix may be capital, and what does not fit 64 bits is no number. */
  lemma OtherNumbers(v: nat)
    ensures ParseUint("0" + Digits(v, 8)) == Fitting(v) && ParseUint("0X" + Digits(v, 16)) == Fitting(v)
    ensures ParseUint(Hex(v)) == Fitting(v) && (v >= TWO64 ==> ParseUint(Dec(v)) == Fitting(v))
  {
    OctalNumber(v);
    HexNumber(v, 'x');
    HexNumber(v, 'X');
    if v >= TWO64 {
      ValueOfDigits(v, 10);
      hide Digits, Value;
      assert Dec(v)[0] != '0';
    }
  }

  function Fitting(v: nat): Option<u64> { if v < TWO64 then Some(v) else None }

  lemma OctalNumber(v: nat)
    ensures ParseUint("0" + Digits(v, 8)) == Fitting(v)
  {
    ValueOfDigits(v, 8);
    hide Digits, Value;
    var s := "0" + Digits(v, 8);
    assert s[1..] == Digits(v, 8) && s[1] == Digits(v, 8)[0];
    assert DigitValue(s[1]) < 8;
  }

  lemma HexNumber(v: nat, x: char)
    requires x == 'x' || x == 'X'
    ensures ParseUint("0" + [x] + Digits(v, 16)) == Fitting(v)
  {
    ValueOfDigits(v, 16);
    hide Digits, Value;
    var s := "0" + [x] + Digits(v, 16);
    assert s[2..] == Digits(v, 16);
  }

  /** Different numbers print differently. */
  lemma DecInjective(m: nat, n: nat)
    requires Dec(m) == Dec(n)
    ensures m == n
  {
    ValueOfDigits(m, 10);
    ValueOfDigits(n, 10);
  }

  // ---- division ----

  lemma DivIs(k: int, d: pos, m: nat)
    requires m < d
    ensures (k * d + m) / d == k && (k * d + m) % d == m
  {
    var n := k * d + m;
    assert n == (n / d) * d + n % d;
    assert (k - n / d) * d == n % d - m;
    MulBound(k - n / d, d);
  }

  lemma MulBound(x: int, d: pos)
    ensures x >= 1 ==> x * d >= d
    ensures x <= -1 ==> x * d + d <= 0
  {
  }

  lemma SubMod(a: nat, b: nat, d: pos)
    requires a % d == 0 && b % d == 0
    ensures (a - b) % d == 0
  {
    assert a - b == (a / d - b / d) * d + 0;
    DivIs(a / d - b / d, d, 0);
  }
}
