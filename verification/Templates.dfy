/** Any source text of an expression inside braces: the closing scan agrees with the lexer about where it ends. */
module Templates {
  import opened Wrappers
  import opened Syntax
  import opened Interpolation
  import Text

  predicate IsPlain(c: char) { c != '"' && c != '\'' && c != '}' }

  lemma PlainPassed(s: string, n: nat, tail: string)
    requires n <= |s| && forall i :: 0 <= i < n ==> IsPlain(s[i])
    ensures CloseOffset(s + tail, None) == Shift(n, CloseOffset(s[n..] + tail, None))
  {
    hide CloseOffset;
    ClosePlain(s[..n], s[n..] + tail);
    assert s + tail == s[..n] + (s[n..] + tail);
  }

  /** Inside quotes the scan ends where the lexer does. */
  lemma {:induction false} StringPassed(s: string, quote: char, tail: string)
    requires (quote == '"' || quote == '\'') && LexString(s, quote).Ok?
    ensures var rest := LexString(s, quote).value.1;
      && |rest| <= |s| && s[|s| - |rest|..] == rest
      && CloseOffset(s + tail, Some(quote)) == Shift(|s| - |rest|, CloseOffset(rest + tail, None))
  {
    hide CloseOffset;
    QuotedHead(s, quote, tail);
    if s[0] == '\\' {
      assert LexString(s[2..], quote).Ok? && LexString(s, quote).value.1 == LexString(s[2..], quote).value.1;
      hide LexString;
      StringPassed(s[2..], quote, tail);
    } else if s[0] != quote {
      assert LexString(s[1..], quote).Ok? && LexString(s, quote).value.1 == LexString(s[1..], quote).value.1;
      hide LexString;
      StringPassed(s[1..], quote, tail);
    }
  }

  /** One character, or two behind a backslash, inside quotes. */
  lemma QuotedHead(s: string, quote: char, tail: string)
    requires s != "" && (s[0] == '\\' ==> |s| > 1)
    ensures CloseOffset(s + tail, Some(quote)) ==
      if s[0] == '\\' then Shift(2, CloseOffset(s[2..] + tail, Some(quote)))
      else Shift(1, CloseOffset(s[1..] + tail, if s[0] == quote then None else Some(quote)))
  {
    assert (s + tail)[1..] == s[1..] + tail;
    if |s| > 1 { assert (s + tail)[2..] == s[2..] + tail; }
    assert (s + tail)[0] == s[0] && |s + tail| == |s| + |tail|;
  }

  lemma QuoteHead(s: string, tail: string)
    requires s != "" && (s[0] == '"' || s[0] == '\'')
    ensures CloseOffset(s + tail, None) == Shift(1, CloseOffset(s[1..] + tail, Some(s[0])))
  {
    assert (s + tail)[1..] == s[1..] + tail;
  }

  /** What is left of `s` behind a token is a suffix, and the scan passes over what the token took. */
  ghost predicate Passed(s: string, rest: string, tail: string) {
    && |rest| <= |s| && s[|s| - |rest|..] == rest
    && CloseOffset(s + tail, None) == Shift(|s| - |rest|, CloseOffset(rest + tail, None))
  }

  lemma {:induction false} SpacePassed(s: string, tail: string)
    ensures Passed(s, SkipWs(s), tail)
  {
    hide CloseOffset;
    if s != "" && IsWhitespace(s[0]) {
      SpacePassed(s[1..], tail);
      PlainPassed(s, 1, tail);
    }
  }

  lemma WordPassed(s: string, tail: string)
    requires s != "" && WordToken(s).Ok?
    ensures Passed(s, WordToken(s).value.1, tail)
  {
    hide CloseOffset, WordToken, LexString;
    var c := s[0];
    if c == '"' || c == '\'' {
      QuoteHead(s, tail);
      WordIsString(s);
      StringPassed(s[1..], c, tail);
    } else {
      var n := WordIsRun(s);
      PlainPassed(s, n, tail);
    }
  }

  lemma WordIsString(s: string)
    requires s != "" && (s[0] == '"' || s[0] == '\'') && WordToken(s).Ok?
    ensures LexString(s[1..], s[0]).Ok? && WordToken(s).value.1 == LexString(s[1..], s[0]).value.1
  {
  }

  lemma WordIsRun(s: string) returns (n: nat)
    requires s != "" && s[0] != '"' && s[0] != '\'' && WordToken(s).Ok?
    ensures n <= |s| && WordToken(s).value.1 == s[n..] && forall i :: 0 <= i < n ==> IsPlain(s[i])
  {
    hide NumberToken;
    n := if Text.IsDigit(s[0]) then Run(s, IsNumberChar) else Run(s, IsIdentChar);
  }

  lemma TokenPassed(s: string, tail: string)
    requires Token(s).Ok?
    ensures Passed(s, Token(s).value.1, tail)
  {
    hide CloseOffset, WordToken, SkipWs;
    SpacePassed(s, tail);
    var here := SkipWs(s);
    if here != "" {
      if here[0] in {'(', ')', '&', '|', '!', '=', '<', '>'} {
        var n := |here| - |Token(s).value.1|;
        PlainPassed(here, n, tail);
      } else {
        WordPassed(here, tail);
      }
      PassedTwice(s, here, Token(s).value.1, tail);
    }
  }

  lemma PassedTwice(s: string, mid: string, rest: string, tail: string)
    requires Passed(s, mid, tail) && Passed(mid, rest, tail)
    ensures Passed(s, rest, tail)
  {
    hide CloseOffset;
  }

  /** No expression is cut and none runs on: the closing braces found are those behind it. */
  lemma {:induction false} LexedCloses(s: string, tail: string)
    requires Tokens(s).Ok?
    ensures CloseOffset(s + ("}}" + tail), None) == Some(|s|)
    decreases |s|
  {
    TokenPassed(s, "}}" + tail);
    var t := Token(s).value;
    if t.0 == TEnd {
      EndIsLast(s);
      assert "" + ("}}" + tail) == "}}" + tail;
    } else {
      hide CloseOffset, Token;
      LexedCloses(t.1, tail);
    }
  }

  lemma EndIsLast(s: string)
    requires Token(s).Ok? && Token(s).value.0 == TEnd
    ensures Token(s).value.1 == ""
  {
    hide WordToken;
  }

  lemma Braced(t: string, tail: string)
    ensures var s := "{{" + t + "}}" + tail;
      StartsOpen(s) && s[2..] == t + ("}}" + tail) && s[2..][..|t|] == t && s[2..][|t| + 2..] == tail
  {
    var s := "{{" + t + "}}" + tail;
    assert s[2..] == t + ("}}" + tail);
  }

  /** Any text that parses, put in braces, is split off as its expression, whatever is around it. */
  lemma AnyExpression(t: string, tail: string, lit: string)
    requires ParseExpr(t).Ok?
    ensures Segments("{{" + t + "}}" + tail, lit) == Prepend(Flush(lit) + [Ex(ParseExpr(t).value)], Segments(tail, ""))
  {
    assert Tokens(t).Ok?;
    hide CloseOffset, Tokens, Segments, ParseExpr, Flush;
    LexedCloses(t, tail);
    var s := "{{" + t + "}}" + tail;
    Braced(t, tail);
    ScanExpression(s, lit, |t|, ParseExpr(t).value);
  }
}
