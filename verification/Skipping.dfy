/** What the parser skips when an argument does not fit its type. Quotes and bracket depths are counted from the
    start of the text, independently of how the skipping loop goes; skipping stops at the first character
    outside quotes that closes a bracket opened before, or at a comma outside all brackets. Printed arguments
    are skipped as a whole, unless quotes inside escaped data mislead the counting. */
module Skipping {
  import opened ProgTypes
  import opened Numbers
  import opened DataText
  import opened Validation
  import opened Printer
  import opened Parser
  import Lexer

  // ---- counting ----

  predicate IsQuote(c: char) { c == '\'' || c == '\"' }

  /** The quote that is open after a character, if one was open before. */
  function NextQuote(q: Option<char>, c: char): Option<char> {
    if q.None? then if IsQuote(c) then Some(c) else None
    else if c == q.value then None
    else q
  }

  /** The quote that is open after i characters. */
  function Quote(s: string, i: nat): (q: Option<char>)
    requires i <= |s|
    ensures q.Some? ==> IsQuote(q.value)
  {
    if i == 0 then None else NextQuote(Quote(s, i - 1), s[i - 1])
  }

  /** How many brackets of a kind are open after i characters, not counting what is quoted. */
  function Depth(s: string, i: nat, open: char, close: char): int
    requires i <= |s|
  {
    if i == 0 then 0
    else
      Depth(s, i - 1, open, close) +
      if Quote(s, i - 1).Some? then 0 else if s[i - 1] == open then 1 else if s[i - 1] == close then -1 else 0
  }

  /** Character i ends an argument: it closes a bracket that is not open, or it is a comma outside brackets. */
  predicate EndsAt(stopAtComma: bool, s: string, i: nat)
    requires i < |s|
  {
    && Quote(s, i).None?
    && (|| (s[i] == ')' && Depth(s, i, '(', ')') == 0) || (s[i] == ']' && Depth(s, i, '[', ']') == 0)
        || (s[i] == '}' && Depth(s, i, '{', '}') == 0)
        || (stopAtComma && s[i] == ',' && Depth(s, i, '(', ')') == 0 && Depth(s, i, '[', ']') == 0
            && Depth(s, i, '{', '}') == 0))
  }

  /** From i to j nothing is counted. */
  ghost predicate Idle(stopAtComma: bool, s: string, i: nat, j: nat) {
    && i <= j <= |s| && (forall k :: i <= k < j ==> !EndsAt(stopAtComma, s, k))
    && SameDepths(s, i, j)
  }

  predicate SameDepths(s: string, i: nat, j: nat)
    requires i <= |s| && j <= |s|
  {
    && Depth(s, j, '(', ')') == Depth(s, i, '(', ')') && Depth(s, j, '[', ']') == Depth(s, i, '[', ']')
    && Depth(s, j, '{', '}') == Depth(s, i, '{', '}')
  }

  predicate IsBlank(c: char) { c == ' ' || c == '\t' }

  lemma {:induction false} BlankRun(stopAtComma: bool, s: string, i: nat) returns (j: nat)
    requires i <= |s|
    ensures Idle(stopAtComma, s, i, j) && SkipWs(s[i..]) == s[j..] && Quote(s, j) == Quote(s, i)
    decreases |s| - i
  {
    j := i;
    if i < |s| && IsBlank(s[i]) {
      assert s[i..][0] == s[i] && s[i..][1..] == s[i + 1..];
      j := BlankRun(stopAtComma, s, i + 1);
    } else if i < |s| {
      assert s[i..][0] == s[i];
    }
  }

  /** Inside quotes nothing is counted until the quote is closed. */
  lemma {:induction false} QuoteRun(stopAtComma: bool, s: string, i: nat, q: char) returns (j: nat)
    requires i <= |s| && Quote(s, i) == Some(q) && IsQuote(q)
    ensures Idle(stopAtComma, s, i, j) && SkipUntil(s[i..], q) == s[j..] && Quote(s, j) == Some(q)
    ensures j < |s| ==> s[j] == q
    decreases |s| - i
  {
    j := i;
    if i < |s| {
      assert s[i..][0] == s[i];
      if s[i] != q {
        assert s[i..][1..] == s[i + 1..];
        var k := BlankRun(stopAtComma, s, i + 1);
        j := QuoteRun(stopAtComma, s, k, q);
      }
    }
  }

  /** One character outside quotes that does not end the argument. */
  lemma Counted(stopAtComma: bool, s: string, i: nat)
    requires i < |s| && Quote(s, i).None?
    ensures var c, p, b, r := s[i], Depth(s, i, '(', ')'), Depth(s, i, '[', ']'), Depth(s, i, '{', '}');
      && (Lexer.Stops(c, stopAtComma, p, b, r) <==> EndsAt(stopAtComma, s, i))
      && Depth(s, i + 1, '(', ')') == Lexer.Count(c, '(', ')', p)
        && Depth(s, i + 1, '[', ']') == Lexer.Count(c, '[', ']', b)
      && Depth(s, i + 1, '{', '}') == Lexer.Count(c, '{', '}', r)
      && Quote(s, i + 1) == (if IsQuote(c) then Some(c) else None)
  {
  }

  lemma QuoteCloses(stopAtComma: bool, s: string, i: nat)
    requires i < |s| && Quote(s, i) == Some(s[i])
    ensures Idle(stopAtComma, s, i, i + 1) && Quote(s, i + 1).None?
  {
  }

  lemma IdleThen(stopAtComma: bool, s: string, i: nat, j: nat, k: nat)
    requires Idle(stopAtComma, s, i, j) && Idle(stopAtComma, s, j, k)
    ensures Idle(stopAtComma, s, i, k)
  {
    hide EndsAt, Depth;
  }

  /** Behind a quote the counting goes on behind the closing one, if there is one. */
  lemma Quoted(stopAtComma: bool, s: string, i: nat, q: char) returns (j: nat, closed: bool)
    requires i <= |s| && Quote(s, i) == Some(q)
    ensures Idle(stopAtComma, s, i, j)
    ensures var r := SkipUntil(SkipWs(s[i..]), q);
      closed == (r != []) && (if closed then SkipWs(r[1..]) == s[j..] && Quote(s, j).None? else j == |s|)
  {
    hide SkipWs, SkipUntil, Idle, Quote, EndsAt;
    var k := BlankRun(stopAtComma, s, i);
    IdleRange(stopAtComma, s, i, k);
    var m := QuoteRun(stopAtComma, s, k, q);
    IdleRange(stopAtComma, s, k, m);
    IdleThen(stopAtComma, s, i, k, m);
    closed := m < |s|;
    j := m;
    if closed {
      QuoteCloses(stopAtComma, s, m);
      assert s[m..][1..] == s[m + 1..];
      j := BlankRun(stopAtComma, s, m + 1);
      IdleThen(stopAtComma, s, i, m, m + 1);
      IdleThen(stopAtComma, s, i, m + 1, j);
    }
  }

  lemma IdleRange(stopAtComma: bool, s: string, i: nat, j: nat)
    requires Idle(stopAtComma, s, i, j)
    ensures i <= j <= |s|
  {
  }

  /** Skipping from a place outside quotes, with the depths counted so far. */
  lemma {:induction false} EatFrom(stopAtComma: bool, s: string, i: nat) returns (j: nat)
    requires i <= |s| && Quote(s, i).None?
    ensures i <= j <= |s| && (forall k :: i <= k < j ==> !EndsAt(stopAtComma, s, k))
    ensures j < |s| ==> EndsAt(stopAtComma, s, j)
    ensures EatExcessive(stopAtComma, s[i..], Depth(s, i, '(', ')'), Depth(s, i, '[', ']'), Depth(s, i, '{', '}')) ==
      s[j..]
    decreases |s| - i
  {
    hide SkipWs, SkipUntil, EatExcessive, Depth, Quote, EndsAt, Lexer.Stops, Lexer.Count;
    var p, b, r := Depth(s, i, '(', ')'), Depth(s, i, '[', ']'), Depth(s, i, '{', '}');
    j := i;
    if i == |s| {
      Lexer.EatNothing(stopAtComma, p, b, r);
    } else {
      assert s[i..][0] == s[i] && s[i..][1..] == s[i + 1..];
      Lexer.EatStep(stopAtComma, s[i..], p, b, r);
      Counted(stopAtComma, s, i);
      if !EndsAt(stopAtComma, s, i) {
        if IsQuote(s[i]) {
          var k, closed := Quoted(stopAtComma, s, i + 1, s[i]);
          j := k;
          if closed {
            j := EatFrom(stopAtComma, s, k);
          }
        } else {
          var k := BlankRun(stopAtComma, s, i + 1);
          j := EatFrom(stopAtComma, s, k);
        }
      }
    }
  }

  /** What is skipped goes up to the first character that ends an argument, or to the end of the text. */
  lemma EatIs(stopAtComma: bool, s: string) returns (j: nat)
    ensures j <= |s| && EatExcessive(stopAtComma, s, 0, 0, 0) == s[j..]
    ensures (forall k :: 0 <= k < j ==> !EndsAt(stopAtComma, s, k)) && (j < |s| ==> EndsAt(stopAtComma, s, j))
  {
    assert s[0..] == s;
    j := EatFrom(stopAtComma, s, 0);
  }

  // ---- texts that are skipped as a whole ----

  predicate AllClosed(s: string, i: nat)
    requires i <= |s|
  {
    Quote(s, i).None? && Depth(s, i, '(', ')') == 0 && Depth(s, i, '[', ']') == 0 && Depth(s, i, '{', '}') == 0
  }

  /** Quotes and brackets are closed at the end, and no character before ends an argument. */
  ghost predicate Whole(stopAtComma: bool, t: string) {
    AllClosed(t, |t|) && forall i :: 0 <= i < |t| ==> !EndsAt(stopAtComma, t, i)
  }

  lemma {:induction false} Front(s: string, t: string, i: nat)
    requires i <= |s|
    ensures Quote(s + t, i) == Quote(s, i)
    ensures forall open, close :: Depth(s + t, i, open, close) == Depth(s, i, open, close)
  {
    if i > 0 {
      Front(s, t, i - 1);
      assert (s + t)[i - 1] == s[i - 1];
    }
  }

  lemma {:induction false} Behind(s: string, t: string, i: nat)
    requires Quote(s, |s|).None? && i <= |t|
    ensures Quote(s + t, |s| + i) == Quote(t, i)
    ensures forall open, close ::
      Depth(s + t, |s| + i, open, close) == Depth(s, |s|, open, close) + Depth(t, i, open, close)
  {
    if i == 0 {
      Front(s, t, |s|);
    } else {
      Behind(s, t, i - 1);
      assert (s + t)[|s| + i - 1] == t[i - 1];
    }
  }

  lemma WholeBoth(stopAtComma: bool, s: string, t: string)
    requires Whole(stopAtComma, s) && Whole(stopAtComma, t)
    ensures Whole(stopAtComma, s + t)
  {
    hide Quote, Depth;
    forall i | 0 <= i < |s + t|
      ensures !EndsAt(stopAtComma, s + t, i)
    {
      if i < |s| {
        Front(s, t, i);
        assert (s + t)[i] == s[i] && !EndsAt(stopAtComma, s, i);
      } else {
        Behind(s, t, i - |s|);
        assert (s + t)[i] == t[i - |s|] && !EndsAt(stopAtComma, t, i - |s|);
      }
    }
    Behind(s, t, |t|);
  }

  lemma WholeLess(t: string)
    requires Whole(true, t)
    ensures Whole(false, t)
  {
    hide Quote, Depth;
    forall i | 0 <= i < |t|
      ensures !EndsAt(false, t, i)
    {
      assert !EndsAt(true, t, i);
    }
  }

  /** A character that is not counted. */
  predicate IsPlain(c: char) { !IsQuote(c) && c !in {'(', ')', '[', ']', '{', '}', ','} }

  lemma {:induction false} PlainDepth(t: string, i: nat)
    requires i <= |t| && forall k :: 0 <= k < |t| ==> IsPlain(t[k])
    ensures AllClosed(t, i)
  {
    if i > 0 {
      PlainDepth(t, i - 1);
    }
  }

  lemma PlainWhole(t: string)
    requires forall k :: 0 <= k < |t| ==> IsPlain(t[k])
    ensures Whole(true, t)
  {
    hide Quote, Depth;
    PlainDepth(t, |t|);
  }

  lemma CommaWhole()
    ensures Whole(false, ", ")
  {
    var t := ", ";
    assert AllClosed(t, 0);
    assert Quote(t, 1).None? && AllClosed(t, 1);
    assert Quote(t, 2).None? && AllClosed(t, 2);
  }

  /** Depths in a text without excess closing brackets. */
  lemma {:induction false} NotNegative(t: string, i: nat)
    requires Whole(false, t) && i <= |t|
    ensures Depth(t, i, '(', ')') >= 0 && Depth(t, i, '[', ']') >= 0 && Depth(t, i, '{', '}') >= 0
  {
    if i > 0 {
      NotNegative(t, i - 1);
      assert !EndsAt(false, t, i - 1);
    }
  }

  predicate Pair(open: char, close: char) {
    (open == '(' && close == ')') || (open == '[' && close == ']') || (open == '{' && close == '}')
  }

  lemma OpenDepth(open: char, close: char)
    requires Pair(open, close)
    ensures Quote([open], 1).None? && forall o, c :: Pair(o, c) ==> Depth([open], 1, o, c) == if o == open then 1 else 0
  {
    assert Quote([open], 0).None?;
    forall o, c | Pair(o, c)
      ensures Depth([open], 1, o, c) == if o == open then 1 else 0
    {
      assert Depth([open], 0, o, c) == 0;
    }
  }

  /** Inside a bracket commas do not count. */
  lemma BracketWhole(open: char, close: char, t: string)
    requires Pair(open, close) && Whole(false, t)
    ensures Whole(true, [open] + t + [close])
  {
    var a := [open] + t;
    OpenDepth(open, close);
    assert a + [close] == [open] + t + [close];
    hide Quote, Depth;
    forall i | 0 <= i < |a|
      ensures !EndsAt(true, a + [close], i)
    {
      Front(a, [close], i);
      assert (a + [close])[i] == a[i];
      if i == 0 {
        assert a[0] == open;
      } else {
        Behind([open], t, i - 1);
        NotNegative(t, i - 1);
        assert a[i] == t[i - 1] && !EndsAt(false, t, i - 1);
      }
    }
    Behind([open], t, |t|);
    Front(a, [close], |a|);
    LastClose(a, open, close);
  }

  lemma LastClose(a: string, open: char, close: char)
    requires Pair(open, close) && Quote(a, |a|).None?
    requires forall o, c :: Pair(o, c) ==> Depth(a, |a|, o, c) == if o == open then 1 else 0
    ensures !EndsAt(true, a + [close], |a|) && AllClosed(a + [close], |a| + 1)
  {
    Front(a, [close], |a|);
    assert (a + [close])[|a|] == close;
    assert Pair('(', ')') && Pair('[', ']') && Pair('{', '}');
  }

  /** Text in front of a comma is skipped exactly up to the comma if and only if it is whole; a whole text is skipped in
      front of a closing bracket too. */
  lemma SkippedIff(t: string, rest: string)
    requires rest != [] && rest[0] in {',', ')', ']', '}'}
    ensures rest[0] == ',' ==> (EatExcessive(true, t + rest, 0, 0, 0) == rest <==> Whole(true, t))
    ensures Whole(true, t) ==> EatExcessive(true, t + rest, 0, 0, 0) == rest
    ensures Whole(false, t) && rest[0] != ',' ==> EatExcessive(false, t + rest, 0, 0, 0) == rest
  {
    hide EatExcessive, Quote, Depth;
    var s := t + rest;
    Front(t, rest, |t|);
    assert s[|t|] == rest[0] && s[|t|..] == rest;
    forall i | 0 <= i < |t|
      ensures EndsAt(true, s, i) <==> EndsAt(true, t, i)
      ensures EndsAt(false, s, i) <==> EndsAt(false, t, i)
    {
      Front(t, rest, i);
      assert s[i] == t[i];
    }
    assert EndsAt(true, s, |t|) <==> Quote(t, |t|).None? && AtEnd(t, rest[0]);
    assert rest[0] != ',' ==> (EndsAt(false, s, |t|) <==> EndsAt(true, s, |t|));
    var j := EatIs(true, s);
    var k := EatIs(false, s);
    assert |s[j..]| == |s| - j && (s[j..] == rest ==> j == |t|);
    if Whole(true, t) {
      assert EndsAt(true, s, |t|) && j == |t|;
    }
    if Whole(false, t) && rest[0] != ',' {
      assert EndsAt(false, s, |t|) && k == |t|;
    }
  }

  predicate AtEnd(t: string, c: char) {
    || (c == ')' && Depth(t, |t|, '(', ')') == 0) || (c == ']' && Depth(t, |t|, '[', ']') == 0)
    || (c == '}' && Depth(t, |t|, '{', '}') == 0)
    || (c == ',' && Depth(t, |t|, '(', ')') == 0 && Depth(t, |t|, '[', ']') == 0 && Depth(t, |t|, '{', '}') == 0)
  }

  // ---- printed arguments ----

  /** Data that is printed without a quote inside quotes. */
  predicate QuoteFree(data: seq<char>, readable: bool) {
    (readable || IsReadableData(data)) ==> forall i :: 0 <= i < |data| ==> data[i] != '\''
  }

  /** The names of options are identifiers, and escaped data holds no single quote. */
  ghost predicate Quiet(a: Arg)
    decreases a
  {
    match a
    case DataArg(typ, data, _) =>
      typ.BufferT? ==> typ.c.dir == DirOut || QuoteFree(PrintedData(data, typ.c.varlen), IsReadableType(typ))
    case PointerArg(_, _, _, res) => res.Some? ==> Quiet(res.value)
    case GroupArg(_, inner) => forall i :: 0 <= i < |inner| ==> Quiet(inner[i])
    case UnionArg(_, option) => IsIdent(FieldName(option.typ)) && Quiet(option)
    case _ => true
  }

  lemma IdentWhole(id: string)
    requires IsIdent(id)
    ensures Whole(true, id)
  {
    PlainWhole(id);
  }

  lemma HexWhole(v: nat)
    ensures Whole(true, Hex(v)) && Whole(true, Dec(v))
  {
    ValueOfDigits(v, 16);
    ValueOfDigits(v, 10);
    hide Digits;
    IdentWhole(Digits(v, 16));
    IdentWhole(Digits(v, 10));
    PlainWhole("0x");
    WholeBoth(true, "0x", Digits(v, 16));
  }

  lemma {:induction false} InQuotes(q: char, t: string, i: nat)
    requires IsQuote(q) && (forall k :: 0 <= k < |t| ==> t[k] != q) && 1 <= i <= |t| + 1
    ensures var s := [q] + t + [q];
      && Quote(s, i) == Some(q) && Depth(s, i, '(', ')') == 0 && Depth(s, i, '[', ']') == 0
        && Depth(s, i, '{', '}') == 0
  {
    var s := [q] + t + [q];
    if i == 1 {
      assert s[0] == q && Quote(s, 0).None?;
      assert Depth(s, 0, '(', ')') == 0 && Depth(s, 0, '[', ']') == 0 && Depth(s, 0, '{', '}') == 0;
    } else {
      InQuotes(q, t, i - 1);
      assert s[i - 1] == t[i - 2];
    }
  }

  /** Text between quotes that holds no such quote. */
  lemma QuotesWhole(q: char, t: string)
    requires IsQuote(q) && forall k :: 0 <= k < |t| ==> t[k] != q
    ensures Whole(true, [q] + t + [q])
  {
    var s := [q] + t + [q];
    InQuotes(q, t, |t| + 1);
    assert s[|t| + 1] == q && s[0] == q;
    assert AllClosed(s, |t| + 2);
    forall i | 0 <= i < |s|
      ensures !EndsAt(true, s, i)
    {
      if i > 0 {
        InQuotes(q, t, i);
      }
    }
  }

  lemma {:induction false} HexEncodePlain(data: seq<char>)
    ensures forall k :: 0 <= k < |HexEncode(data)| ==> HexEncode(data)[k] != '\"'
  {
    if data != [] {
      HexEncodePlain(data[1..]);
    }
  }

  lemma {:induction false} EscapeQuoteFree(data: seq<char>)
    requires forall i :: 0 <= i < |data| ==> data[i] != '\''
    ensures forall k :: 0 <= k < |Escape(data)| ==> Escape(data)[k] != '\''
  {
    if data != [] {
      EscapeQuoteFree(data[1..]);
      assert data[0] != '\'';
      assert forall k :: 0 <= k < |EscapeByte(data[0])| ==> EscapeByte(data[0])[k] != '\'';
    }
  }

  lemma LiteralWhole(data: seq<char>, readable: bool)
    requires QuoteFree(data, readable)
    ensures Whole(true, DataLiteral(data, readable))
  {
    if !readable && !IsReadableData(data) {
      HexEncodePlain(data);
      QuotesWhole('\"', HexEncode(data));
    } else {
      EscapeQuoteFree(data);
      QuotesWhole('\'', Escape(data));
    }
  }

  lemma DataWhole(a: Arg)
    requires a.DataArg? && a.typ.BufferT? && Quiet(a)
    ensures Whole(true, PrintData(a))
  {
    hide Whole, DataLiteral, Dec;
    PlainWhole("/");
    PlainWhole("");
    if a.typ.c.dir == DirOut {
      QuotesWhole('\"', "");
      assert ['\"'] + "" + ['\"'] == "\"\"";
      HexWhole(DataSize(a));
      WholeBoth(true, "\"\"", "/");
      WholeBoth(true, "\"\"" + "/", Dec(DataSize(a)));
      assert "\"\"/" == "\"\"" + "/";
    } else {
      var d := PrintedData(a.data, a.typ.c.varlen);
      LiteralWhole(d, IsReadableType(a.typ));
      HexWhole(|a.data|);
      WholeBoth(true, "/", Dec(|a.data|));
      WholeBoth(true, DataLiteral(d, IsReadableType(a.typ)), "/" + Dec(|a.data|));
      WholeBoth(true, DataLiteral(d, IsReadableType(a.typ)), "");
    }
  }

  lemma AddrWhole(a: Arg)
    requires a.PointerArg?
    ensures Whole(true, PrintAddr(a))
  {
    hide Whole, Hex;
    var x, y := Hex(Wrap64(ADDR_BASE + a.address)), Hex(a.vmaSize);
    HexWhole(Wrap64(ADDR_BASE + a.address));
    HexWhole(a.vmaSize);
    PlainWhole("/");
    WholeBoth(true, "/", y);
    WholeBoth(true, x, "/" + y);
    WholeLess(x);
    WholeLess(x + ("/" + y));
    BracketWhole('(', ')', x);
    BracketWhole('(', ')', x + ("/" + y));
    var t := if a.vmaSize != 0 then x + ("/" + y) else x;
    assert "(" + x + (if a.vmaSize != 0 then "/" + y else "") + ")" == "(" + t + ")";
  }

  lemma ResultWhole(a: Arg, vs: Vars)
    requires a.ResultArg?
    ensures Whole(true, PrintResult(a, vs))
  {
    hide Whole, Hex, Dec;
    HexWhole(a.val);
    var n := if a.ref.Some? && a.ref.value in vs.ids then vs.ids[a.ref.value] else 0;
    NameWhole(n);
    var div, add := if a.opDiv != 0 then "/" + Dec(a.opDiv) else "", if a.opAdd != 0 then "+" + Dec(a.opAdd) else "";
    PlainWhole("");
    PlainWhole("/");
    PlainWhole("+");
    HexWhole(a.opDiv);
    HexWhole(a.opAdd);
    WholeBoth(true, "/", Dec(a.opDiv));
    WholeBoth(true, "+", Dec(a.opAdd));
    WholeBoth(true, VarName(n), div);
    WholeBoth(true, VarName(n) + div, add);
  }

  lemma NameWhole(n: nat)
    ensures Whole(true, VarName(n)) && Whole(true, "<" + VarName(n) + "=>")
  {
    hide Whole, Dec;
    HexWhole(n);
    PlainWhole("r");
    WholeBoth(true, "r", Dec(n));
    PlainWhole("<");
    PlainWhole("=>");
    WholeBoth(true, "<", VarName(n));
    WholeBoth(true, "<" + VarName(n), "=>");
  }

  /** A printed argument is skipped as a whole. */
  lemma {:induction false} ArgWhole(tgt: Target, used: set<nat>, a: Arg, vs: Vars)
    requires Quiet(a)
    ensures Whole(true, PrintArg(tgt, used, a, vs).0)
    decreases a, 2
  {
    hide Whole, Hex, PrintAddr, PrintData, PrintResult, IsDefault;
    match a
    case ConstArg(_, val) => HexWhole(val);
    case PointerArg(typ, address, _, res) => PointerWhole(tgt, used, a, vs);
    case DataArg(typ, _, _) =>
      PlainWhole("");
      if typ.BufferT? {
        DataWhole(a);
      }
    case GroupArg(typ, inner) => GroupWhole(tgt, used, a, vs);
    case UnionArg(_, option) =>
      var name := FieldName(option.typ);
      IdentWhole(name);
      PlainWhole("@");
      PlainWhole("=");
      WholeBoth(true, "@", name);
      WholeBoth(true, "@" + name, "=");
      ArgWhole(tgt, used, option, vs);
      WholeBoth(true, "@" + name + "=", PrintArg(tgt, used, option, vs).0);
    case ResultArg(_, id, _, _, _, _) =>
      var vs' := if id in used then Alloc(vs, id) else vs;
      ResultWhole(a, vs');
      NameWhole(vs.next);
      PlainWhole("");
      WholeBoth(true, "<" + VarName(vs.next) + "=>", PrintResult(a, vs'));
      WholeBoth(true, "", PrintResult(a, vs'));
  }

  lemma {:induction false} PointerWhole(tgt: Target, used: set<nat>, a: Arg, vs: Vars)
    requires a.PointerArg? && Quiet(a)
    ensures Whole(true, PrintArg(tgt, used, a, vs).0)
    decreases a, 1
  {
    hide Whole, Hex, PrintAddr, IsDefault;
    HexWhole(a.address);
    AddrWhole(a);
    PlainWhole("&");
    PlainWhole("=");
    PlainWhole("nil");
    PlainWhole("");
    PlainWhole("ANY=");
    var head, any := "&" + PrintAddr(a), if IsAnyPtr(a.typ) then "ANY=" else "";
    WholeBoth(true, "&", PrintAddr(a));
    WholeBoth(true, head, "=");
    WholeBoth(true, head + "=", any);
    WholeBoth(true, head + "=" + any, "nil");
    if a.res.Some? {
      ArgWhole(tgt, used, a.res.value, vs);
      WholeBoth(true, head + "=" + any, PrintArg(tgt, used, a.res.value, vs).0);
    }
  }

  lemma {:induction false} GroupWhole(tgt: Target, used: set<nat>, a: Arg, vs: Vars)
    requires a.GroupArg? && Quiet(a)
    ensures Whole(true, PrintArg(tgt, used, a, vs).0)
    ensures Whole(false, PrintInner(tgt, used, Shown(tgt, used, a), vs).0)
    decreases a, 1
  {
    hide Whole, Cut;
    var shown := Shown(tgt, used, a);
    assert forall i :: 0 <= i < |shown| ==> shown[i] == a.inner[i];
    InnerWhole(tgt, used, a.inner, |shown|, 0, vs);
    assert a.inner[0..|shown|] == shown;
    var s := PrintInner(tgt, used, shown, vs).0;
    BracketWhole('{', '}', s);
    BracketWhole('[', ']', s);
  }

  /** Members i to n of a group. */
  lemma {:induction false} InnerWhole(tgt: Target, used: set<nat>, args: seq<Arg>, n: nat, i: nat, vs: Vars)
    requires i <= n <= |args| && forall k :: 0 <= k < |args| ==> Quiet(args[k])
    ensures Whole(false, PrintTail(tgt, used, args[i..n], vs).0)
      && Whole(false, PrintInner(tgt, used, args[i..n], vs).0)
    decreases args, 0, n - i
  {
    hide Whole, PrintArg, Quiet;
    PlainWhole("");
    WholeLess("");
    if i < n {
      var rest := args[i..n][1..];
      assert args[i..n][0] == args[i] && rest == args[i + 1..n];
      var (s, vs1) := PrintArg(tgt, used, args[i], vs);
      ArgWhole(tgt, used, args[i], vs);
      WholeLess(s);
      InnerWhole(tgt, used, args, n, i + 1, vs);
      InnerWhole(tgt, used, args, n, i + 1, vs1);
      var t := PrintTail(tgt, used, rest, vs1).0;
      WholeBoth(false, s, t);
      CommaWhole();
      WholeBoth(false, ", ", s);
      WholeBoth(false, ", " + s, t);
    }
  }

  // ---- quotes inside escaped data ----

  function Quotes(data: seq<char>): nat {
    if data == [] then 0 else Quotes(data[1..]) + if data[0] == '\'' then 1 else 0
  }

  /** Where the counting stands after a text that starts inside or outside single quotes. */
  ghost predicate Reaches(s: string, i: nat, inside: bool) {
    && i <= |s| && Quote(s, i) == (if inside then Some('\'') else None)
    && Depth(s, i, '(', ')') == 0 && Depth(s, i, '[', ']') == 0 && Depth(s, i, '{', '}') == 0
    && forall k :: 0 <= k < i ==> !EndsAt(true, s, k)
  }

  lemma OneReached(s: string, i: nat, inside: bool)
    requires Reaches(s, i, inside) && i < |s| && (IsPlain(s[i]) || s[i] == '\'')
    ensures Reaches(s, i + 1, inside != (s[i] == '\''))
  {
  }

  lemma {:induction false} RunReached(s: string, i: nat, inside: bool, t: string, n: nat)
    requires Reaches(s, i, inside) && i + |t| <= |s| && s[i..i + |t|] == t && n <= |t|
    requires forall k :: 0 <= k < n ==> IsPlain(t[k])
    ensures Reaches(s, i + n, inside)
  {
    if n > 0 {
      RunReached(s, i, inside, t, n - 1);
      assert s[i + n - 1] == t[n - 1];
      OneReached(s, i + n - 1, inside);
    }
  }

  /** A byte without special meaning, or a single quote. */
  predicate Harmless(c: char) { c == '\'' || IsPlain(c) }

  lemma EscapeHarmless(c: char)
    requires Harmless(c)
    ensures c == '\'' ==> EscapeByte(c) == ['\\', '\'']
    ensures c != '\'' ==> forall k :: 0 <= k < |EscapeByte(c)| ==> IsPlain(EscapeByte(c)[k])
  {
  }

  lemma {:induction false} EscapeReached(s: string, i: nat, inside: bool, data: seq<char>)
    requires (forall k :: 0 <= k < |data| ==> Harmless(data[k])) && Reaches(s, i, inside)
    requires i + |Escape(data)| <= |s| && s[i..i + |Escape(data)|] == Escape(data)
    ensures Reaches(s, i + |Escape(data)|, if Quotes(data) % 2 == 0 then inside else !inside)
    decreases data
  {
    hide Reaches, IsPlain, EscapeByte, Harmless;
    if data != [] {
      var first, rest := EscapeByte(data[0]), Escape(data[1..]);
      var j, now := i + |first|, inside != (data[0] == '\'');
      Slices(s, i, first, rest);
      ByteReached(s, i, inside, data[0]);
      EscapeReached(s, j, now, data[1..]);
      assert Quotes(data) == Quotes(data[1..]) + if data[0] == '\'' then 1 else 0;
    }
  }

  lemma Slices(s: string, i: nat, first: string, rest: string)
    requires i + |first + rest| <= |s| && s[i..i + |first + rest|] == first + rest
    ensures s[i..i + |first|] == first && s[i + |first|..i + |first| + |rest|] == rest
  {
    var t := s[i..i + |first + rest|];
    assert s[i..i + |first|] == t[..|first|] && s[i + |first|..i + |first| + |rest|] == t[|first|..];
  }

  lemma ByteReached(s: string, i: nat, inside: bool, c: char)
    requires Harmless(c) && Reaches(s, i, inside) && i + |EscapeByte(c)| <= |s|
      && s[i..i + |EscapeByte(c)|] == EscapeByte(c)
    ensures Reaches(s, i + |EscapeByte(c)|, inside != (c == '\''))
  {
    EscapeHarmless(c);
    hide Reaches, IsPlain, EscapeByte, Harmless;
    var e := EscapeByte(c);
    if c == '\'' {
      assert s[i] == s[i..i + 2][0] == '\\' && s[i + 1] == s[i..i + 2][1] == '\'';
      BackslashPlain();
      OneReached(s, i, inside);
      OneReached(s, i + 1, inside);
    } else {
      RunReached(s, i, inside, e, |e|);
    }
  }

  lemma BackslashPlain()
    ensures IsPlain('\\')
  {
  }

  /** Escaped data without brackets, commas and double quotes is skipped as a whole if and only if its single quotes
      are even in number. */
  lemma EvenQuotesIff(data: seq<char>)
    requires forall k :: 0 <= k < |data| ==> Harmless(data[k])
    ensures Whole(true, "'" + Escape(data) + "'") <==> Quotes(data) % 2 == 0
  {
    hide Escape, Quotes;
    var esc := Escape(data);
    var s := "'" + esc + "'";
    assert Quote(s, 0).None? && Reaches(s, 0, false);
    assert s[0] == '\'' && s[|esc| + 1] == '\'' && s[1..1 + |esc|] == esc;
    OneReached(s, 0, false);
    EscapeReached(s, 1, true, data);
    OneReached(s, |esc| + 1, Quotes(data) % 2 == 0);
  }
}
