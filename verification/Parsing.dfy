/** The lexer and parser as the objects they are: a text or token list and a
    position that every method moves forward. */
module Parsing {
  import opened Wrappers
  import opened Text
  import opened Syntax

  type LexedString = Result<(string, string), ExprError>

  /** `all` is `rest` with `s` in front of its text. */
  ghost predicate Prefixed(s: string, rest: LexedString, all: LexedString) {
    match rest
    case Ok(t) => all == Ok((s + t.0, t.1))
    case Err(e) => all == Err(e)
  }

  lemma PrefixMore(s: string, u: string, rest: LexedString, mid: LexedString, all: LexedString)
    requires Prefixed(u, rest, mid) && Prefixed(s, mid, all)
    ensures Prefixed(s + u, rest, all)
  {
    if rest.Ok? {
      assert s + (u + rest.value.0) == s + u + rest.value.0;
    }
  }

  class Lexer {
    const chars: string
    var pos: nat

    ghost predicate Valid()
      reads this
    {
      pos <= |chars|
    }

    ghost function Rest(): string
      reads this
      requires Valid()
    {
      chars[pos..]
    }

    constructor (src: string)
      ensures Valid() && Rest() == src && fresh(this)
    {
      chars := src;
      pos := 0;
    }

    method Next() returns (c: Option<char>)
      requires Valid()
      modifies this`pos
      ensures Valid()
      ensures old(Rest()) == "" ==> c == None && Rest() == ""
      ensures old(Rest()) != "" ==> c == Some(old(Rest())[0]) && Rest() == old(Rest())[1..]
    {
      if pos < |chars| {
        c := Some(chars[pos]);
        pos := pos + 1;
      } else {
        c := None;
      }
    }

    method SkipSpace()
      requires Valid()
      modifies this`pos
      ensures Valid() && Rest() == SkipWs(old(Rest()))
    {
      while pos < |chars| && IsWhitespace(chars[pos])
        invariant Valid() && SkipWs(Rest()) == SkipWs(old(Rest()))
      {
        assert chars[pos..][1..] == chars[pos + 1..];
        pos := pos + 1;
      }
    }

    /** Skip the longest run of characters satisfying `p` and return it. */
    method TakeRun(p: char -> bool) returns (raw: string)
      requires Valid()
      modifies this`pos
      ensures Valid()
      ensures var n := Run(old(Rest()), p); raw == old(Rest())[..n] && Rest() == old(Rest())[n..]
    {
      var start := pos;
      while pos < |chars| && p(chars[pos])
        invariant start <= pos <= |chars|
        invariant Run(chars[start..], p) == pos - start + Run(chars[pos..], p)
      {
        assert chars[pos..][1..] == chars[pos + 1..];
        pos := pos + 1;
      }
      raw := chars[start..pos];
    }

    method TakeString(quote: char) returns (r: Result<string, ExprError>)
      requires Valid() && Rest() != ""
      modifies this`pos
      ensures Valid()
      ensures match LexString(old(Rest())[1..], quote)
              case Ok(t) => r == Ok(t.0) && Rest() == t.1
              case Err(e) => r == Err(e)
    {
      pos := pos + 1;
      ghost var all := LexString(Rest(), quote);
      var s := "";
      assert all.Ok? ==> "" + all.value.0 == all.value.0;
      while true
        invariant Valid()
        invariant Prefixed(s, LexString(Rest(), quote), all)
        decreases |chars| - pos
      {
        ghost var here := Rest();
        var c := Next();
        match c {
          case None => return Err(UnterminatedString);
          case Some('\\') =>
            var esc := Next();
            if esc.None? { return Err(UnterminatedEscape); }
            assert Rest() == here[2..];
            PrefixMore(s, Unescape(esc.value), LexString(Rest(), quote), LexString(here, quote), all);
            s := s + Unescape(esc.value);
          case Some(ch) =>
            if ch == quote { break; }
            PrefixMore(s, [ch], LexString(Rest(), quote), LexString(here, quote), all);
            s := s + [ch];
        }
      }
      assert s + "" == s;
      r := Ok(s);
    }

    method NextToken() returns (r: Result<Tok, ExprError>)
      requires Valid()
      modifies this`pos
      ensures Valid()
      ensures match Token(old(Rest()))
              case Ok(t) => r == Ok(t.0) && Rest() == t.1
              case Err(e) => r == Err(e)
    {
      hide WordToken, SkipWs;
      SkipSpace();
      if pos >= |chars| { return Ok(TEnd); }
      ghost var s := Rest();
      var c := chars[pos];
      match c {
        case '(' => pos := pos + 1; r := Ok(TLParen);
        case ')' => pos := pos + 1; r := Ok(TRParen);
        case '&' =>
          pos := pos + 1;
          var n := Next();
          r := if n == Some('&') then Ok(TAnd) else Err(ExpectedAnd);
        case '|' =>
          pos := pos + 1;
          var n := Next();
          r := if n == Some('|') then Ok(TOr) else Err(ExpectedOr);
        case '=' =>
          pos := pos + 1;
          var n := Next();
          r := if n == Some('=') then Ok(TEqEq) else Err(ExpectedEq);
        case '!' =>
          pos := pos + 1;
          if pos < |chars| && chars[pos] == '=' { pos := pos + 1; r := Ok(TNe); } else { r := Ok(TNot); }
        case '<' =>
          pos := pos + 1;
          if pos < |chars| && chars[pos] == '=' { pos := pos + 1; r := Ok(TLe); } else { r := Ok(TLt); }
        case '>' =>
          pos := pos + 1;
          if pos < |chars| && chars[pos] == '=' { pos := pos + 1; r := Ok(TGe); } else { r := Ok(TGt); }
        case _ =>
          r := NextWord();
      }
    }

    method NextWord() returns (r: Result<Tok, ExprError>)
      requires Valid() && Rest() != ""
      modifies this`pos
      ensures Valid()
      ensures match WordToken(old(Rest()))
              case Ok(t) => r == Ok(t.0) && Rest() == t.1
              case Err(e) => r == Err(e)
    {
      var c := chars[pos];
      if c == '"' || c == '\'' {
        var t := TakeString(c);
        r := if t.Ok? then Ok(TStr(t.value)) else Err(t.error);
      } else if IsDigit(c) {
        var raw := TakeRun(IsNumberChar);
        r := NumberToken(raw);
      } else if IsIdentStart(c) {
        var raw := TakeRun(IsIdentChar);
        r := Ok(IdentToken(raw));
      } else {
        r := Err(UnexpectedChar);
      }
    }
  }

  lemma TokensStep(s: string)
    ensures match Token(s)
            case Err(e) => Tokens(s) == Err(e)
            case Ok(t) =>
              if t.0 == TEnd then Tokens(s) == Ok([TEnd])
              else match Tokens(t.1)
                case Err(e) => Tokens(s) == Err(e)
                case Ok(rest) => Tokens(s) == Ok([t.0] + rest)
  {
  }

  class Parser {
    const toks: seq<Tok>
    var pos: nat // runs past the end when the end is consumed

    ghost function Rest(): seq<Tok>
      reads this
    {
      if pos <= |toks| then toks[pos..] else []
    }

    constructor (ts: seq<Tok>)
      ensures Rest() == ts && fresh(this)
    {
      toks := ts;
      pos := 0;
    }

    /** The state after a production that `spec` describes. */
    ghost predicate Follows(spec: Parsed, r: Result<Expr, ExprError>)
      reads this
    {
      match spec
      case Ok(p) => r == Ok(p.0) && Rest() == p.1
      case Err(e) => r == Err(e)
    }

    method PeekTok() returns (t: Tok)
      ensures t == Peek(Rest())
    {
      t := if pos < |toks| then toks[pos] else TEnd;
    }

    method Bump() returns (t: Tok)
      modifies this`pos
      ensures t == Peek(old(Rest())) && Rest() == Drop(old(Rest()))
    {
      t := if pos < |toks| then toks[pos] else TEnd;
      pos := pos + 1;
    }

    method OrExpr() returns (r: Result<Expr, ExprError>)
      modifies this`pos
      ensures Follows(ParseOr(old(Rest())), r)
      decreases |Rest()|, 4
    {
      var l := AndExpr();
      if l.Err? { return l; }
      var left := l.value;
      var t := PeekTok();
      while t == TOr
        invariant t == Peek(Rest())
        invariant |Rest()| < |old(Rest())|
        invariant ParseOr(old(Rest())) == ParseOrRest(left, Rest())
        decreases |Rest()|
      {
        var _ := Bump();
        var rt := AndExpr();
        if rt.Err? { return rt; }
        left := Or(left, rt.value);
        t := PeekTok();
      }
      r := Ok(left);
    }

    method AndExpr() returns (r: Result<Expr, ExprError>)
      modifies this`pos
      ensures Follows(ParseAnd(old(Rest())), r)
      decreases |Rest()|, 3
    {
      var l := NotExpr();
      if l.Err? { return l; }
      var left := l.value;
      var t := PeekTok();
      while t == TAnd
        invariant t == Peek(Rest())
        invariant |Rest()| < |old(Rest())|
        invariant ParseAnd(old(Rest())) == ParseAndRest(left, Rest())
        decreases |Rest()|
      {
        var _ := Bump();
        var rt := NotExpr();
        if rt.Err? { return rt; }
        left := And(left, rt.value);
        t := PeekTok();
      }
      r := Ok(left);
    }

    method NotExpr() returns (r: Result<Expr, ExprError>)
      modifies this`pos
      ensures Follows(ParseNot(old(Rest())), r)
      decreases |Rest()|, 2
    {
      var t := PeekTok();
      if t == TNot {
        var _ := Bump();
        r := NotExpr();
        if r.Ok? { r := Ok(Not(r.value)); }
      } else {
        r := CmpExpr();
      }
    }

    method CmpExpr() returns (r: Result<Expr, ExprError>)
      modifies this`pos
      ensures Follows(ParseCmp(old(Rest())), r)
      decreases |Rest()|, 1
    {
      var l := PrimaryExpr();
      if l.Err? { return l; }
      var t := PeekTok();
      var op := CmpOpOf(t);
      if op.None? { return l; }
      var _ := Bump();
      var rt := PrimaryExpr();
      r := if rt.Ok? then Ok(Cmp(l.value, op.value, rt.value)) else rt;
    }

    method PrimaryExpr() returns (r: Result<Expr, ExprError>)
      modifies this`pos
      ensures Follows(ParsePrimary(old(Rest())), r)
      decreases |Rest()|, 0
    {
      var t := Bump();
      match t {
        case TLParen =>
          r := OrExpr();
          if r.Err? { return; }
          var close := Bump();
          if close != TRParen { r := Err(ExpectedParen); }
        case TStr(s) => r := Ok(Str(s));
        case TInt(i) => r := Ok(Int(i));
        case TFloat(f) => r := Ok(Float(f));
        case TTrue => r := Ok(Bool(true));
        case TFalse => r := Ok(Bool(false));
        case TNull => r := Ok(Null);
        case TIdent(name) => r := ResolveRef(name);
        case _ => r := Err(UnexpectedToken);
      }
    }
  }

  /** Lex everything, then parse it: the function every theorem about parsing speaks of. */
  method ParseSource(src: string) returns (r: Result<Expr, ExprError>)
    ensures r == ParseExpr(src)
  {
    hide Token, Tokens, ParseOr;
    var lx := new Lexer(src);
    var toks: seq<Tok> := [];
    ghost var all := Tokens(src);
    assert all.Ok? ==> [] + all.value == all.value;
    while true
      invariant lx.Valid()
      invariant match Tokens(lx.Rest())
                case Ok(ts) => all == Ok(toks + ts)
                case Err(e) => all == Err(e)
      decreases |lx.Rest()|
    {
      TokensStep(lx.Rest());
      ghost var here := Tokens(lx.Rest());
      var t := lx.NextToken();
      if t.Err? { return Err(t.error); }
      ghost var rest := Tokens(lx.Rest());
      assert t.value != TEnd && rest.Ok? ==> here.value == [t.value] + rest.value;
      assert rest.Ok? ==> toks + ([t.value] + rest.value) == toks + [t.value] + rest.value;
      toks := toks + [t.value];
      if t.value == TEnd { break; }
    }
    assert Tokens(src) == Ok(toks);
    var p := new Parser(toks);
    r := p.OrExpr();
    if r.Ok? {
      var t := p.PeekTok();
      if t != TEnd { r := Err(TrailingTokens); }
    }
  }
}
