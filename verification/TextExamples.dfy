/** A program and its text, character by character. */
module TextExamples {
  import opened ProgTypes
  import opened Numbers
  import opened DataText
  import opened Validation
  import opened Printer

  function In(size: u64, varlen: bool): Common { Common("a", size, DirIn, false, varlen) }

  const INT := IntT(In(4, false), KInt, Bits(FormatNative, 0, 0, false))
  const PAD := IntT(In(4, false), KConst(0, true), Bits(FormatNative, 0, 0, false))
  const FILE := BufferT(In(0, true), BufferFilename)
  const BLOB := BufferT(In(0, true), BlobRand)
  const FD := ResourceT(In(4, false), FormatNative, 0xffff_ffff_ffff_ffff)
  const FD_OUT := ResourceT(Common("ret", 4, DirOut, false, false), FormatNative, 0xffff_ffff_ffff_ffff)
  const KEY := StructKey("s", DirIn)
  const STRUCT := StructT("s", KEY)
  const TARGET := Target(8, 4096, 1024, 0x2000_0000, [0],
                         [Syscall("f$x", [PtrT(In(8, false), FILE), INT], Some(FD_OUT)),
                          Syscall("write", [FD, PtrT(In(8, false), STRUCT), INT], None)],
                         map[KEY := StructDesc(In(16, false), [INT, PAD, INT, INT], 0, false)], map[KEY := 0])

  function FileArg(): Arg { DataArg(FILE, ['a', '\'', 0 as char], 0) }

  /** Padding is not printed, nor is the last field, which is its default. */
  function StructArg(): Arg {
    GroupArg(STRUCT, [ConstArg(INT, 1), ConstArg(PAD, 0), ConstArg(INT, 0xab), ConstArg(INT, 0)])
  }

  function FirstCall(): Call {
    Call(0, [PointerArg(PtrT(In(8, false), FILE), 0, 0, Some(FileArg())), ConstArg(INT, 2)],
         Some(ResultArg(FD_OUT, 7, None, 0, 0, 0)))
  }

  function SecondCall(): Call {
    Call(1, [ResultArg(FD, 9, Some(7), 2, 10, 0), PointerArg(PtrT(In(8, false), STRUCT), 0x40, 0, Some(StructArg())),
             ConstArg(INT, 0)], None)
  }

  lemma SmallNumbers()
    ensures Hex(0) == "0x0" && Hex(1) == "0x1" && Hex(2) == "0x2" && Hex(0xab) == "0xab"
    ensures Dec(0) == "0" && Dec(2) == "2" && Dec(10) == "10"
  {
    assert Digits(0xa, 16) == "a";
  }

  lemma OneDigit(n: nat, d: nat, s: string, t: string)
    requires n > 0 && d < 10 && Digits(n, 16) == s && t == s + [DigitChar(d)]
    ensures Digits(16 * n + d, 16) == t
  {
  }

  lemma FourZeros(n: nat, s: string)
    requires n > 0 && Digits(n, 16) == s
    ensures Digits(0x1_0000 * n, 16) == s + "0000"
  {
    hide Digits;
    OneDigit(n, 0, s, s + "0");
    OneDigit(16 * n, 0, s + "0", s + "00");
    OneDigit(0x100 * n, 0, s + "00", s + "000");
    OneDigit(0x1000 * n, 0, s + "000", s + "0000");
  }

  lemma HighDigits()
    ensures Digits(0x7f00_0000, 16) == "7f00" + "0000"
  {
    assert Digits(7, 16) == "7" && Digits(0x7f, 16) == "7f" && Digits(0x7f0, 16) == "7f0"
      && Digits(0x7f00, 16) == "7f00";
    hide Digits;
    FourZeros(0x7f00, "7f00");
  }

  lemma Addresses()
    ensures Hex(0x7f00_0000_0000) == "0x" + ("7f00" + "0000" + "0000")
    ensures Hex(0x7f00_0000_0040) == "0x" + ("7f00" + "0000" + "0040")
  {
    HighDigits();
    hide Digits;
    var n, s := 0x7f00_0000, "7f00" + "0000";
    FourZeros(n, s);
    OneDigit(n, 0, s, s + "0");
    OneDigit(16 * n, 0, s + "0", s + "00");
    OneDigit(0x100 * n, 4, s + "00", s + "004");
    OneDigit(0x1000 * n + 4, 0, s + "004", s + "0040");
  }

  /** Bytes that are not printable are escaped, and so are quotes. */
  lemma FileText(used: set<nat>, vs: Vars)
    ensures PrintArg(TARGET, used, FileArg(), vs).0 == "'" + "a\\'\\x00" + "'"
    ensures PrintArg(TARGET, used, FileArg(), vs).1 == vs
  {
    var d := FileArg().data;
    assert StripZeros(d) == d;
    EscapedText(d);
    hide Escape;
    assert PrintedData(d, true) == d;
  }

  lemma EscapedText(d: seq<char>)
    requires d == ['a', '\'', 0 as char]
    ensures Escape(d) == "a\\'\\x00"
  {
    var e, z := d[1..], d[1..][1..];
    assert z == [0 as char] && z[1..] == [] && e[0] == '\'' && d[0] == 'a';
    assert Escape(z) == "\\x00" + Escape(z[1..]);
    assert Escape(z) == "\\x00";
    assert Escape(e) == "\\'" + Escape(z);
  }

  lemma StructText(used: set<nat>, vs: Vars)
    ensures PrintArg(TARGET, used, StructArg(), vs).0 == "{" + "0x1" + ", 0xab" + "}"
    ensures PrintArg(TARGET, used, StructArg(), vs).1 == vs
  {
    SmallNumbers();
    hide Hex;
    var inner := StructArg().inner;
    assert inner[..3] == [ConstArg(INT, 1), ConstArg(PAD, 0), ConstArg(INT, 0xab)];
    assert Cut(TARGET, used, inner[..3]) == 3;
    assert Cut(TARGET, used, inner) == 3;
    var shown := Shown(TARGET, used, StructArg());
    assert shown == inner[..3];
    LastText(used, ConstArg(INT, 0xab), "0xab", vs);
    assert shown[1..][1..] == [ConstArg(INT, 0xab)];
    assert PrintTail(TARGET, used, shown[1..], vs).0 == ", 0xab";
    assert PrintInner(TARGET, used, shown, vs).0 == "0x1" + ", 0xab";
  }

  lemma LastText(used: set<nat>, a: Arg, s: string, vs: Vars)
    requires PrintArg(TARGET, used, a, vs) == (s, vs) && !IsPad(a.typ)
    ensures PrintTail(TARGET, used, [a], vs).0 == ", " + s && PrintTail(TARGET, used, [a], vs).1 == vs
  {
    assert [a][1..] == [] && PrintTail(TARGET, used, [], vs) == ("", vs);
  }

  /** A pointer to something that is not its default. */
  lemma PointerText(ptr: Arg, vs: Vars)
    requires ptr.PointerArg? && ptr.res.Some? && !IsAnyPtr(ptr.typ) && !IsDefault(TARGET, {7}, ptr.res.value)
    ensures PrintArg(TARGET, {7}, ptr, vs).0 == "&" + PrintAddr(ptr) + "=" + PrintArg(TARGET, {7}, ptr.res.value, vs).0
    ensures PrintArg(TARGET, {7}, ptr, vs).1 == PrintArg(TARGET, {7}, ptr.res.value, vs).1
  {
    hide PrintAddr, IsDefault;
    var s := "&" + PrintAddr(ptr) + "=";
    assert s + "" == s;
  }

  lemma AddressText(ptr: Arg)
    requires ptr.PointerArg? && ptr.vmaSize == 0 && (ptr.address == 0 || ptr.address == 0x40)
    ensures PrintAddr(ptr) == if ptr.address == 0 then "(0x7f0000000000)" else "(0x7f0000000040)"
  {
    Addresses();
    hide Hex;
    assert "0x" + ("7f00" + "0000" + "0000") == "0x7f0000000000";
    assert "0x" + ("7f00" + "0000" + "0040") == "0x7f0000000040";
  }

  lemma FilePointerText(vs: Vars)
    ensures var ptr := FirstCall().args[0];
      PrintArg(TARGET, {7}, ptr, vs).0 == "&" + "(0x7f0000000000)" + "=" + ("'" + "a\\'\\x00" + "'")
      && PrintArg(TARGET, {7}, ptr, vs).1 == vs
  {
    var ptr := FirstCall().args[0];
    assert !IsDefault(TARGET, {7}, FileArg());
    FileText({7}, vs);
    hide PrintAddr, IsDefault, PrintArg;
    AddressText(ptr);
    PointerText(ptr, vs);
  }

  lemma FirstText()
    ensures PrintCall(TARGET, {7}, FirstCall(), Vars(map[], 0)).0 ==
      "r0 = " + "f$x" + "(" + ("&" + "(0x7f0000000000)" + "=" + ("'" + "a\\'\\x00" + "'") + ", 0x2") + ")"
    ensures PrintCall(TARGET, {7}, FirstCall(), Vars(map[], 0)).1 == Vars(map[7 := 0], 1)
  {
    var vs := Alloc(Vars(map[], 0), 7);
    assert vs == Vars(map[7 := 0], 1);
    FilePointerText(vs);
    ZeroText(vs);
    var args := FirstCall().args;
    hide PrintArg, PrintInner, PrintTail, PrintCall;
    LastText({7}, ConstArg(INT, 2), "0x2", vs);
    assert args[1..] == [ConstArg(INT, 2)];
    OneText(args, vs);
    NamedCallText(FirstCall());
  }

  lemma OneText(args: seq<Arg>, vs: Vars)
    requires |args| == 2 && !IsPad(args[0].typ) && PrintArg(TARGET, {7}, args[0], vs).1 == vs
    ensures PrintInner(TARGET, {7}, args, vs).0 ==
      PrintArg(TARGET, {7}, args[0], vs).0 + PrintTail(TARGET, {7}, args[1..], vs).0
    ensures PrintInner(TARGET, {7}, args, vs).1 == PrintTail(TARGET, {7}, args[1..], vs).1
  {
    hide PrintArg;
  }

  lemma NamedCallText(c: Call)
    requires c.meta == 0 && c.ret.Some? && c.ret.value.ResultArg? && c.ret.value.id == 7
    ensures var vs := Vars(map[7 := 0], 1);
      && PrintCall(TARGET, {7}, c, Vars(map[], 0)).0 ==
        "r0 = " + "f$x" + "(" + PrintInner(TARGET, {7}, c.args, vs).0 + ")"
      && PrintCall(TARGET, {7}, c, Vars(map[], 0)).1 == PrintInner(TARGET, {7}, c.args, vs).1
  {
    NameText();
    hide PrintInner, VarName;
    assert Alloc(Vars(map[], 0), 7) == Vars(map[7 := 0], 1);
  }

  lemma NameText()
    ensures VarName(0) + " = " == "r0 = "
  {
    SmallNumbers();
  }

  lemma StructPointerText(vs: Vars)
    ensures var ptr := SecondCall().args[1];
      PrintArg(TARGET, {7}, ptr, vs).0 == "&" + "(0x7f0000000040)" + "=" + ("{" + "0x1" + ", 0xab" + "}")
      && PrintArg(TARGET, {7}, ptr, vs).1 == vs
  {
    var ptr := SecondCall().args[1];
    assert StructArg().inner[0] == ConstArg(INT, 1) && !IsDefault(TARGET, {7}, ConstArg(INT, 1));
    assert !IsDefault(TARGET, {7}, StructArg());
    StructText({7}, vs);
    hide PrintAddr, IsDefault, PrintArg;
    AddressText(ptr);
    PointerText(ptr, vs);
  }

  lemma ReferenceText(vs: Vars)
    requires vs == Vars(map[7 := 0], 1)
    ensures PrintArg(TARGET, {7}, SecondCall().args[0], vs).0 == "r0/2+10"
    ensures PrintArg(TARGET, {7}, SecondCall().args[0], vs).1 == vs
  {
    SmallNumbers();
    hide Hex, Dec;
    assert PrintResult(SecondCall().args[0], vs) == "r" + "0" + ("/" + "2") + ("+" + "10");
  }

  lemma ZeroText(vs: Vars)
    ensures PrintArg(TARGET, {7}, ConstArg(INT, 0), vs) == ("0x0", vs)
    ensures PrintArg(TARGET, {7}, ConstArg(INT, 2), vs) == ("0x2", vs)
  {
    SmallNumbers();
    hide Hex;
  }

  lemma SecondText()
    ensures var vs := Vars(map[7 := 0], 1);
      && PrintCall(TARGET, {7}, SecondCall(), vs).0 ==
         "write" + "(" + ("r0/2+10" + (", " + ("&" + "(0x7f0000000040)" + "=" + ("{" + "0x1" + ", 0xab" + "}"))
                                       + ", 0x0"))
         + ")"
      && PrintCall(TARGET, {7}, SecondCall(), vs).1 == vs
  {
    var vs := Vars(map[7 := 0], 1);
    var args := SecondCall().args;
    StructPointerText(vs);
    ReferenceText(vs);
    ZeroText(vs);
    hide PrintArg, PrintInner, PrintTail, PrintCall;
    LastText({7}, ConstArg(INT, 0), "0x0", vs);
    assert args[1..][1..] == [ConstArg(INT, 0)];
    TwoTexts(args, vs);
    PlainCallText(SecondCall(), vs);
  }

  lemma PlainCallText(c: Call, vs: Vars)
    requires c.ret.None? && c.meta == 1
    ensures PrintCall(TARGET, {7}, c, vs).0 == "write" + "(" + PrintInner(TARGET, {7}, c.args, vs).0 + ")"
    ensures PrintCall(TARGET, {7}, c, vs).1 == PrintInner(TARGET, {7}, c.args, vs).1
  {
    hide PrintInner;
    assert "" + "write" == "write";
  }

  lemma TwoTexts(args: seq<Arg>, vs: Vars)
    requires |args| == 3 && (forall i :: 0 <= i < 3 ==>
                             !IsPad(args[i].typ) && PrintArg(TARGET, {7}, args[i], vs).1 == vs)
    requires PrintTail(TARGET, {7}, args[1..][1..], vs).1 == vs
    ensures PrintInner(TARGET, {7}, args, vs).0 == PrintArg(TARGET, {7}, args[0], vs).0 +
      (", " + PrintArg(TARGET, {7}, args[1], vs).0 + PrintTail(TARGET, {7}, args[1..][1..], vs).0)
    ensures PrintInner(TARGET, {7}, args, vs).1 == vs
  {
    hide PrintArg;
    assert args[1..][0] == args[1];
  }

  /** The text of the program. */
  lemma ProgramText()
    ensures Serialize(TARGET, Prog([FirstCall(), SecondCall()])) ==
      "r0 = " + "f$x" + "(" + ("&" + "(0x7f0000000000)" + "=" + ("'" + "a\\'\\x00" + "'") + ", 0x2") + ")" + "\n" +
      ("write" + "(" + ("r0/2+10" + (", " + ("&" + "(0x7f0000000040)" + "=" + ("{" + "0x1" + ", 0xab" + "}"))
                                     + ", 0x0"))
       + ")" + "\n")
  {
    var calls := [FirstCall(), SecondCall()];
    UsedResults();
    FirstText();
    SecondText();
    hide PrintCall;
    assert calls[1..] == [SecondCall()] && [SecondCall()][1..] == [];
    var vs := Vars(map[7 := 0], 1);
    var first, second := PrintCall(TARGET, {7}, FirstCall(), Vars(map[], 0)).0,
      PrintCall(TARGET, {7}, SecondCall(), vs).0;
    assert PrintLines(TARGET, {7}, [], vs) == [];
    assert PrintLines(TARGET, {7}, [SecondCall()], vs) == [second];
    assert PrintLines(TARGET, {7}, calls, Vars(map[], 0)) == [first, second];
    assert [first, second][1..] == [second] && [second][1..] == [];
    assert JoinLines([second]) == second + "\n" by { assert JoinLines([]) == ""; }
    assert JoinLines([first, second]) == first + "\n" + (second + "\n");
  }

  lemma NoRefs(a: Arg, b: Arg)
    requires Refs(a) == {} && Refs(b) == {}
    ensures RefsSeq([a, b]) == {} && RefsSeq([a]) == {}
  {
    assert [a, b][1..] == [b] && [b][1..] == [] && [a][1..] == [];
    assert RefsSeq([]) == {};
  }

  lemma UsedResults()
    ensures RefsCalls([FirstCall(), SecondCall()]) == {7}
  {
    var calls := [FirstCall(), SecondCall()];
    assert calls[1..] == [SecondCall()] && [SecondCall()][1..] == [] && RefsCalls([]) == {};
    var a, b, s := FirstCall().args, SecondCall().args, StructArg().inner;
    NoRefs(a[0], a[1]);
    assert a == [a[0], a[1]];
    NoRefs(s[0], s[1]);
    NoRefs(s[2], s[3]);
    assert s[1..][1..] == [s[2], s[3]];
    assert RefsSeq(s[1..]) == {};
    assert RefsSeq(s) == {};
    NoRefs(b[1], b[2]);
    assert b[1..] == [b[1], b[2]];
    assert RefsSeq(b) == {7};
  }
}
