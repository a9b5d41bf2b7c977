/** Tokens of program text and the literals of data arguments: hexadecimal in double quotes or
    escaped text in single quotes. */
module DataText {
  import opened ProgTypes
  import opened Numbers

  // ---- tokens ----

  function SkipWs(r: string): (r': string)
    ensures |r'| <= |r|
  {
    if r != [] && (r[0] == ' ' || r[0] == '\t') then SkipWs(r[1..]) else r
  }

  /** Reads character c and the blanks behind it. */
  function Expect(r: string, c: char): (o: Option<string>)
    ensures o.Some? ==> |o.value| < |r|
  {
    if r == [] || r[0] != c then None else Some(SkipWs(r[1..]))
  }

  /** Length of the longest prefix of identifier characters. */
  function IdentLen(r: string): (n: nat)
    ensures n <= |r|
    ensures forall i :: 0 <= i < n ==> IsIdentChar(r[i])
    ensures n < |r| ==> !IsIdentChar(r[n])
  {
    if r != [] && IsIdentChar(r[0]) then 1 + IdentLen(r[1..]) else 0
  }

  /** Reads an identifier and the blanks behind it. */
  function Ident(r: string): (o: Option<(string, string)>)
    ensures o.Some? ==> |o.value.1| < |r| && IsIdent(o.value.0)
  {
    var n := IdentLen(r);
    if n == 0 then None else Some((r[..n], SkipWs(r[n..])))
  }

  // ---- printing data ----

  const ZERO_BYTE: char := 0 as char

  predicate IsPrintable(v: char) { 0x20 <= v as int < 0x7f }

  ghost predicate IsBytes(data: seq<char>) {
    forall i :: 0 <= i < |data| ==> data[i] as int < 256
  }

  /** Two hexadecimal digits, high one first. */
  function HexPair(v: char): string {
    [DigitChar(v as int / 16 % 16), DigitChar(v as int % 16)]
  }

  function HexEncode(data: seq<char>): string {
    if data == [] then [] else HexPair(data[0]) + HexEncode(data[1..])
  }

  function EscapeByte(v: char): string {
    if v as int == 7 then "\\a"
    else if v as int == 8 then "\\b"
    else if v as int == 12 then "\\f"
    else if v == '\n' then "\\n"
    else if v == '\r' then "\\r"
    else if v == '\t' then "\\t"
    else if v as int == 11 then "\\v"
    else if v == '\'' then "\\'"
    else if v == '\"' then "\\\""
    else if v == '\\' then "\\\\"
    else if IsPrintable(v) then [v]
    else "\\x" + HexPair(v)
  }

  function Escape(data: seq<char>): string {
    if data == [] then [] else EscapeByte(data[0]) + Escape(data[1..])
  }

  predicate IsReadableByte(v: char) {
    IsPrintable(v) || v as int in {0, 7, 8, 9, 10, 11, 12, 13}
  }

  predicate IsReadableData(data: seq<char>) {
    data != [] && forall i :: 0 <= i < |data| ==> IsReadableByte(data[i])
  }

  function DataLiteral(data: seq<char>, readable: bool): string {
    if !readable && !IsReadableData(data) then "\"" + HexEncode(data) + "\""
    else "'" + Escape(data) + "'"
  }

  // ---- parsing data ----

  /** hex.DecodeString. */
  function HexDecode(s: string): Option<seq<char>>
    decreases |s|
  {
    if s == [] then Some([])
    else if |s| < 2 || DigitValue(s[0]) >= 16 || DigitValue(s[1]) >= 16 then None
    else
      var others := HexDecode(s[2..]);
      if others.None? then None
      else Some([(DigitValue(s[0]) * 16 + DigitValue(s[1])) as char] + others.value)
  }

  /** A lower-case hexadecimal digit of an escape sequence. */
  function HexCharValue(c: char): nat {
    if '0' <= c <= '9' || 'a' <= c <= 'f' then DigitValue(c) else 99
  }

  /** One possibly escaped byte: the byte and how many characters it took. */
  function UnescapeByte(r: string): (o: Option<(char, nat)>)
    ensures o.Some? ==> 1 <= o.value.1 <= |r|
  {
    if r == [] then None
    else if r[0] != '\\' then Some((r[0], 1))
    else if |r| < 2 then None
    else if r[1] == 'x' then
      if |r| < 4 || HexCharValue(r[2]) >= 16 || HexCharValue(r[3]) >= 16 then None
      else Some(((HexCharValue(r[2]) * 16 + HexCharValue(r[3])) as char, 4))
    else if r[1] == 'a' then Some((7 as char, 2))
    else if r[1] == 'b' then Some((8 as char, 2))
    else if r[1] == 'f' then Some((12 as char, 2))
    else if r[1] == 'n' then Some(('\n', 2))
    else if r[1] == 'r' then Some(('\r', 2))
    else if r[1] == 't' then Some(('\t', 2))
    else if r[1] == 'v' then Some((11 as char, 2))
    else if r[1] == '\'' then Some(('\'', 2))
    else if r[1] == '\"' then Some(('\"', 2))
    else if r[1] == '\\' then Some(('\\', 2))
    else None
  }

  /** Bytes up to an unescaped quote or a NUL; the terminator stays in the remaining text. */
  function Unescape(r: string): (o: Option<(seq<char>, string)>)
    ensures o.Some? ==> |o.value.1| <= |r|
    decreases |r|
  {
    if r == [] then None
    else if r[0] == '\'' || r[0] == ZERO_BYTE then Some(([], r))
    else
      var b := UnescapeByte(r);
      if b.None? then None
      else
        var others := Unescape(r[b.value.1..]);
        if others.None? then None else Some(([b.value.0] + others.value.0, others.value.1))
  }

  /** The data literal at the head of r and the text behind it. */
  function ParseData(r: string): (o: Option<(seq<char>, string)>)
    ensures o.Some? ==> |o.value.1| < |r|
  {
    if r == [] then None
    else if r[0] == '\"' then
      var r1 := Expect(r, '\"');
      if r1.None? || r1.value == [] then None
      else
        var id := if r1.value[0] == '\"' then Some(("", r1.value)) else Ident(r1.value);
        if id.None? then None
        else
          var r2 := Expect(id.value.1, '\"');
          var data := HexDecode(id.value.0);
          if r2.None? || data.None? then None else Some((data.value, r2.value))
    else if r[0] != '\'' then None
    else
      var body := Unescape(r[1..]);
      if body.None? then None
      else
        var r2 := Expect(body.value.1, '\'');
        if r2.None? then None else Some((body.value.0, r2.value))
  }

  // ---- round trip ----

  lemma {:induction false} IdentLenIs(id: string, rest: string)
    requires forall i :: 0 <= i < |id| ==> IsIdentChar(id[i])
    requires rest == [] || !IsIdentChar(rest[0])
    ensures IdentLen(id + rest) == |id|
  {
    if id == [] {
      assert id + rest == rest;
    } else {
      assert (id + rest)[0] == id[0];
      assert (id + rest)[1..] == id[1..] + rest;
      IdentLenIs(id[1..], rest);
    }
  }

  /** An identifier in front of blanks or a delimiter is read whole. */
  lemma IdentIs(id: string, rest: string)
    requires IsIdent(id) && (rest == [] || !IsIdentChar(rest[0]))
    ensures Ident(id + rest) == Some((id, SkipWs(rest)))
  {
    IdentLenIs(id, rest);
    assert (id + rest)[..|id|] == id && (id + rest)[|id|..] == rest;
  }

  lemma ExpectIs(c: char, rest: string)
    ensures Expect([c] + rest, c) == Some(SkipWs(rest))
  {
    assert ([c] + rest)[1..] == rest;
  }

  lemma HexPairValue(v: char)
    requires v as int < 256
    ensures DigitValue(HexPair(v)[0]) * 16 + DigitValue(HexPair(v)[1]) == v as int
    ensures HexCharValue(HexPair(v)[0]) == DigitValue(HexPair(v)[0]) < 16
    ensures HexCharValue(HexPair(v)[1]) == DigitValue(HexPair(v)[1]) < 16
    ensures IsIdentChar(HexPair(v)[0]) && IsIdentChar(HexPair(v)[1])
  {
  }

  lemma HexDecodeCons(v: char, s: string)
    requires v as int < 256 && HexDecode(s).Some?
    ensures HexDecode(HexPair(v) + s) == Some([v] + HexDecode(s).value)
  {
    HexPairValue(v);
    var t := HexPair(v) + s;
    assert t[0] == HexPair(v)[0] && t[1] == HexPair(v)[1] && t[2..] == s;
  }

  lemma {:induction false} HexEncodeRoundTrip(data: seq<char>)
    requires IsBytes(data)
    ensures HexDecode(HexEncode(data)) == Some(data)
  {
    if data != [] {
      HexEncodeRoundTrip(data[1..]);
      HexDecodeCons(data[0], HexEncode(data[1..]));
      assert [data[0]] + data[1..] == data;
    }
  }

  lemma {:induction false} HexEncodeIsIdent(data: seq<char>)
    requires IsBytes(data) && data != []
    ensures IsIdent(HexEncode(data))
  {
    HexPairValue(data[0]);
    if |data| > 1 {
      HexEncodeIsIdent(data[1..]);
    } else {
      assert HexEncode(data[1..]) == [];
    }
  }

  lemma UnescapeByteIs(v: char, rest: string)
    requires v as int < 256
    ensures UnescapeByte(EscapeByte(v) + rest) == Some((v, |EscapeByte(v)|))
    ensures EscapeByte(v) != [] && EscapeByte(v)[0] != '\'' && EscapeByte(v)[0] != ZERO_BYTE
    ensures forall i :: 0 <= i < |EscapeByte(v)| ==> IsPrintable(EscapeByte(v)[i])
  {
    HexPairValue(v);
    var r := EscapeByte(v) + rest;
    assert forall i :: 0 <= i < |EscapeByte(v)| ==> r[i] == EscapeByte(v)[i];
  }

  lemma {:induction false} EscapeRoundTrip(data: seq<char>, rest: string)
    requires IsBytes(data)
    ensures Unescape(Escape(data) + "'" + rest) == Some((data, "'" + rest))
    ensures forall i :: 0 <= i < |Escape(data)| ==> IsPrintable(Escape(data)[i])
  {
    var r := Escape(data) + "'" + rest;
    if data == [] {
      assert r == "'" + rest;
    } else {
      var tail := Escape(data[1..]) + "'" + rest;
      var e := EscapeByte(data[0]);
      UnescapeByteIs(data[0], tail);
      EscapeRoundTrip(data[1..], rest);
      assert r == e + tail;
      assert r[0] == e[0];
      assert r[|e|..] == tail;
      assert [data[0]] + data[1..] == data;
    }
  }

  lemma HexBody(data: seq<char>, tail: string)
    requires IsBytes(data) && tail != [] && tail[0] == '\"'
    ensures var body := HexEncode(data) + tail;
            && SkipWs(body) == body && body != []
            && (if body[0] == '\"' then Some(("", body)) else Ident(body)) == Some((HexEncode(data), tail))
  {
    var body := HexEncode(data) + tail;
    if data == [] {
      assert body == tail;
    } else {
      HexEncodeIsIdent(data);
      assert body[0] == HexEncode(data)[0];
      IdentIs(HexEncode(data), tail);
    }
  }

  lemma HexLiteralRoundTrip(data: seq<char>, rest: string)
    requires IsBytes(data)
    ensures ParseData("\"" + HexEncode(data) + "\"" + rest) == Some((data, SkipWs(rest)))
  {
    var tail := ['\"'] + rest;
    var body := HexEncode(data) + tail;
    HexBody(data, tail);
    HexEncodeRoundTrip(data);
    ExpectIs('\"', rest);
    ExpectIs('\"', body);
    QuoteText(HexEncode(data), rest);
  }

  lemma QuoteText(s: string, rest: string)
    ensures "\"" + s + "\"" + rest == ['\"'] + (s + (['\"'] + rest))
  {
  }

  lemma EscapedText(s: string, rest: string)
    ensures var r := "'" + s + "'" + rest; r[0] == '\'' && r[1..] == s + "'" + rest
  {
  }

  /** Every byte string survives printing and parsing, in either literal form. */
  lemma DataLiteralRoundTrip(data: seq<char>, readable: bool, rest: string)
    requires IsBytes(data)
    ensures ParseData(DataLiteral(data, readable) + rest) == Some((data, SkipWs(rest)))
  {
    if !readable && !IsReadableData(data) {
      HexLiteralRoundTrip(data, rest);
    } else {
      hide Escape, SkipWs, Unescape;
      EscapeRoundTrip(data, rest);
      EscapedText(Escape(data), rest);
      ExpectIs('\'', rest);
    }
  }

  /** A literal holds printable characters only, so no raw newline and no NUL. */
  lemma DataLiteralPrintable(data: seq<char>, readable: bool)
    requires IsBytes(data)
    ensures DataLiteral(data, readable) != []
    ensures forall i :: 0 <= i < |DataLiteral(data, readable)| ==> IsPrintable(DataLiteral(data, readable)[i])
  {
    EscapeRoundTrip(data, []);
    if data != [] {
      HexEncodeIsIdent(data);
    }
  }

  /** Read in escape pairs, the text holds no quote that is not escaped. */
  predicate NoBareQuote(s: string) {
    if s == [] then true
    else if s[0] == '\\' then |s| > 1 && NoBareQuote(s[2..])
    else s[0] != '\'' && NoBareQuote(s[1..])
  }

  lemma EscapeByteQuotes(v: char, rest: string)
    requires v as int < 256 && NoBareQuote(rest)
    ensures NoBareQuote(EscapeByte(v) + rest)
  {
    HexPairValue(v);
    var e := EscapeByte(v);
    var r := e + rest;
    assert forall i :: 0 <= i < |e| ==> r[i] == e[i];
    if |e| == 1 {
      assert r[1..] == rest;
    } else if |e| == 2 {
      assert r[2..] == rest;
    } else {
      var tail := r[2..];
      assert tail[0] == e[2] && tail[1..][0] == e[3] && tail[1..][1..] == rest;
    }
  }

  lemma {:induction false} EscapeQuotes(data: seq<char>)
    requires IsBytes(data)
    ensures NoBareQuote(Escape(data))
  {
    if data != [] {
      EscapeQuotes(data[1..]);
      EscapeByteQuotes(data[0], Escape(data[1..]));
    }
  }

  /** A literal is delimited by quotes that do not occur in it: hexadecimal digits hold none, and in escaped
      text every quote has its own backslash. */
  lemma DataLiteralQuotes(data: seq<char>, readable: bool) returns (body: string)
    requires IsBytes(data)
    ensures || (DataLiteral(data, readable) == "\"" + body + "\"" && '\"' !in body)
            || (DataLiteral(data, readable) == "'" + body + "'" && NoBareQuote(body))
  {
    if !readable && !IsReadableData(data) {
      body := HexEncode(data);
      if data != [] {
        HexEncodeIsIdent(data);
      }
    } else {
      body := Escape(data);
      EscapeQuotes(data);
    }
  }
}
