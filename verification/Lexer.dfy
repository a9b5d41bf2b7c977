/** The lexer of the text parser as it runs: a line and a position in it that only moves forward. What
    remains of the line after each operation is what the parsing functions say. */
module Lexer {
  import opened ProgTypes
  import opened Numbers
  import opened DataText
  import opened Parser

  class Reader {
    var s: string
    var i: nat

    constructor (line: string)
      ensures s == line && i == 0 && Rest() == line
    {
      s, i := line, 0;
      new;
      assert s[0..] == s;
    }

    ghost predicate Valid()
      reads this
    {
      i <= |s|
    }

    /** The text that has not been read. */
    function Rest(): string
      reads this
      requires i <= |s|
    {
      s[i..]
    }

    method SkipBlanks()
      requires Valid()
      modifies this`i
      ensures Valid() && Rest() == SkipWs(old(Rest()))
    {
      while i < |s| && (s[i] == ' ' || s[i] == '\t')
        invariant i <= |s| && SkipWs(s[i..]) == SkipWs(old(Rest()))
        decreases |s| - i
      {
        assert s[i..][0] == s[i] && s[i..][1..] == s[i + 1..];
        i := i + 1;
      }
      assert i < |s| ==> s[i..][0] == s[i];
    }

    /** Reads character c and the blanks behind it. */
    method Take(c: char) returns (ok: bool)
      requires Valid()
      modifies this`i
      ensures Valid() && ok == Expect(old(Rest()), c).Some?
      ensures if ok then Rest() == Expect(old(Rest()), c).value else Rest() == old(Rest())
    {
      if i == |s| || s[i] != c {
        assert i < |s| ==> s[i..][0] == s[i];
        return false;
      }
      assert s[i..][0] == s[i] && s[i..][1..] == s[i + 1..];
      i := i + 1;
      SkipBlanks();
      return true;
    }

    /** Reads whatever character is next. */
    method Advance()
      requires Valid() && i < |s|
      modifies this`i
      ensures Valid() && old(i) < i && Rest() == SkipWs(old(Rest())[1..])
    {
      assert s[i..][1..] == s[i + 1..];
      var j := i;
      i := i + 1;
      SkipBlanks();
      assert i > j by {
        assert |Rest()| <= |s[j + 1..]|;
      }
    }

    method ReadIdent() returns (id: Option<string>)
      requires Valid()
      modifies this`i
      ensures Valid()
      ensures match DataText.Ident(old(Rest())) case None => id == None && Rest() == old(Rest())
              case Some(r) => id == Some(r.0) && Rest() == r.1
    {
      var start := i;
      ghost var r := Rest();
      while i < |s| && IsIdentChar(s[i])
        invariant start <= i <= |s| && i - start <= IdentLen(r) && IdentLen(s[i..]) == IdentLen(r) - (i - start)
        decreases |s| - i
      {
        assert s[i..][0] == s[i] && s[i..][1..] == s[i + 1..];
        i := i + 1;
      }
      assert i < |s| ==> s[i..][0] == s[i];
      assert IdentLen(r) == i - start;
      if i == start {
        return None;
      }
      assert r[..i - start] == s[start..i] && r[i - start..] == s[i..];
      var e := i;
      SkipBlanks();
      return Some(s[start..e]);
    }

    /** Skips to an unread quote. */
    method SkipToQuote(quote: char)
      requires Valid()
      modifies this`i
      ensures Valid() && i >= old(i) && Rest() == SkipUntil(old(Rest()), quote)
    {
      while i < |s| && s[i] != quote
        invariant old(i) <= i <= |s| && SkipUntil(s[i..], quote) == SkipUntil(old(Rest()), quote)
        decreases |s| - i
      {
        assert s[i..][0] == s[i];
        Advance();
      }
      assert i < |s| ==> s[i..][0] == s[i];
    }

    /** Skips an argument that does not fit, counting brackets and jumping over quoted text. */
    method EatExcess(stopAtComma: bool)
      requires Valid()
      modifies this`i
      ensures Valid() && Rest() == EatExcessive(stopAtComma, old(Rest()), 0, 0, 0)
    {
      hide EatExcessive, SkipUntil, SkipWs;
      var paren, brack, brace := 0, 0, 0;
      while i < |s|
        invariant Valid() && EatExcessive(stopAtComma, Rest(), paren, brack, brace) ==
          EatExcessive(stopAtComma, old(Rest()), 0, 0, 0)
        decreases |s| - i
      {
        var ch := s[i];
        assert Rest()[0] == ch;
        EatStep(stopAtComma, Rest(), paren, brack, brace);
        if Stops(ch, stopAtComma, paren, brack, brace) {
          return;
        }
        paren, brack, brace := Count(ch, '(', ')', paren), Count(ch, '[', ']', brack), Count(ch, '{', '}', brace);
        if ch == '\'' || ch == '\"' {
          Advance();
          SkipToQuote(ch);
          if i == |s| {
            return;
          }
        }
        Advance();
      }
      EatNothing(stopAtComma, paren, brack, brace);
    }

    /** Reads escaped bytes up to the closing quote or a NUL. */
    method ReadEscaped() returns (data: Option<seq<char>>)
      requires Valid()
      modifies this`i
      ensures Valid()
      ensures match Unescape(old(Rest())) case None => data == None
              case Some(r) => data == Some(r.0) && Rest() == r.1
    {
      hide UnescapeByte;
      var bytes: seq<char> := [];
      ghost var all := Unescape(Rest());
      while true
        invariant Valid() && (Unescape(Rest()).None? <==> all.None?)
        invariant all.Some? ==>
          bytes + Unescape(Rest()).value.0 == all.value.0 && Unescape(Rest()).value.1 == all.value.1
        decreases |s| - i
      {
        if i == |s| {
          return None;
        }
        assert Rest()[0] == s[i];
        if s[i] == '\'' || s[i] == ZERO_BYTE {
          assert bytes + [] == bytes;
          return Some(bytes);
        }
        var b := UnescapeByte(Rest());
        if b.None? {
          return None;
        }
        ghost var tail := Unescape(Rest()[b.value.1..]);
        assert Rest()[b.value.1..] == s[i + b.value.1..];
        assert tail.Some? ==> bytes + ([b.value.0] + tail.value.0) == bytes + [b.value.0] + tail.value.0;
        bytes := bytes + [b.value.0];
        i := i + b.value.1;
      }
    }
  }

  /** The depth of brackets after one character. */
  function Count(ch: char, open: char, close: char, depth: int): int {
    if ch == open then depth + 1 else if ch == close then depth - 1 else depth
  }

  /** Does skipping stop in front of this character? */
  predicate Stops(ch: char, stopAtComma: bool, paren: int, brack: int, brace: int) {
    || (ch == ')' && paren == 0) || (ch == ']' && brack == 0) || (ch == '}' && brace == 0)
    || (ch == ',' && stopAtComma && paren == 0 && brack == 0 && brace == 0)
  }

  lemma EatNothing(stopAtComma: bool, paren: int, brack: int, brace: int)
    ensures EatExcessive(stopAtComma, [], paren, brack, brace) == []
  {
  }

  lemma EatStep(stopAtComma: bool, r: string, paren: int, brack: int, brace: int)
    requires r != []
    ensures var ch := r[0];
      var p, b, c := Count(ch, '(', ')', paren), Count(ch, '[', ']', brack), Count(ch, '{', '}', brace);
      EatExcessive(stopAtComma, r, paren, brack, brace) ==
      if Stops(ch, stopAtComma, paren, brack, brace) then r
      else if ch == '\'' || ch == '\"' then
        var r1 := SkipUntil(SkipWs(r[1..]), ch);
        if r1 == [] then r1 else EatExcessive(stopAtComma, SkipWs(r1[1..]), p, b, c)
      else EatExcessive(stopAtComma, SkipWs(r[1..]), p, b, c)
  {
    hide SkipUntil, SkipWs;
  }
}
