/** The expression language: tokens, grammar, and the functions the lexer and
    parser objects are proved against (see Parsing.dfy). Suffixes of the input
    stand for positions in it. */
module Syntax {
  import opened Wrappers
  import opened Text

  datatype CmpOp = Eq | Ne | Lt | Le | Gt | Ge

  datatype Expr =
    | Or(left: Expr, right: Expr)
    | And(left: Expr, right: Expr)
    | Not(inner: Expr)
    | Cmp(left: Expr, op: CmpOp, right: Expr)
    | Var(name: string)
    | Fact(path: seq<string>)
    | Register(name: string, field: string)
    | Item
    | ResultField(field: string)
    | TemplateVar(name: string)
    | Str(text: string)
    | Int(value: int)
    | Float(text: string) // the literal as written; its value is not interpreted
    | Bool(flag: bool)
    | Null

  datatype ExprError =
    | ExpectedAnd | ExpectedOr | ExpectedEq | UnexpectedChar
    | UnterminatedString | UnterminatedEscape | InvalidNumber | InvalidInteger
    | ExpectedParen | UnexpectedToken | TrailingTokens
    | InvalidReference | BareName
    | NotAvailable | Undefined | UnknownField | Incomplete | NotACommandResult
    | BooleanRequired | NotComparable | NotOrdered | NotScalar
    | UnterminatedInterpolation

  datatype Tok =
    | TIdent(name: string) | TStr(text: string) | TInt(value: int) | TFloat(text: string)
    | TTrue | TFalse | TNull | TAnd | TOr | TNot
    | TEqEq | TNe | TLt | TLe | TGt | TGe | TLParen | TRParen | TEnd

  // ---------------------------------------------------------------- characters

  const MAX_INT := 0x7FFF_FFFF_FFFF_FFFF

  // Unicode's classes beyond ASCII: any sets will do (no space is a letter).
  const NON_ASCII_SPACES: set<char>
  const NON_ASCII_LETTERS: set<char>
  const NON_ASCII_NUMERALS: set<char>

  predicate IsAscii(c: char) { c <= '\U{7f}' }

  predicate IsWhitespace(c: char) {
    if IsAscii(c) then c == ' ' || '\t' <= c <= '\r' else c in NON_ASCII_SPACES - NON_ASCII_LETTERS
  }

  predicate IsAlphabetic(c: char) {
    if IsAscii(c) then 'a' <= c <= 'z' || 'A' <= c <= 'Z' else c in NON_ASCII_LETTERS
  }

  predicate IsAlphanumeric(c: char) {
    IsAlphabetic(c) || IsDigit(c) || (!IsAscii(c) && c in NON_ASCII_NUMERALS)
  }

  predicate IsIdentStart(c: char) { IsAlphabetic(c) || c == '_' }

  predicate IsIdentChar(c: char) { IsAlphanumeric(c) || c == '_' || c == '.' }

  predicate IsNumberChar(c: char) {
    IsDigit(c) || c == '.' || c == 'e' || c == 'E' || c == '+' || c == '-'
  }

  /** Length of the longest prefix whose characters all satisfy `p`. */
  function Run(s: string, p: char -> bool): (n: nat)
    ensures n <= |s|
    ensures forall i :: 0 <= i < n ==> p(s[i])
    ensures n < |s| ==> !p(s[n])
  {
    if s != "" && p(s[0]) then 1 + Run(s[1..], p) else 0
  }

  // --------------------------------------------------------------------- lexer

  function SkipWs(s: string): (r: string)
    ensures |r| <= |s|
    ensures r != "" ==> !IsWhitespace(r[0])
  {
    if s != "" && IsWhitespace(s[0]) then SkipWs(s[1..]) else s
  }

  function Unescape(c: char): string {
    match c
    case 'n' => "\n"
    case 't' => "\t"
    case 'r' => "\r"
    case '\\' => "\\"
    case '"' => "\""
    case '\'' => "'"
    case _ => ['\\', c]
  }

  /** The rest of a string literal after its opening quote: its value and what follows it. */
  function LexString(s: string, quote: char): (r: Result<(string, string), ExprError>)
    ensures r.Ok? ==> |r.value.1| < |s|
  {
    if s == "" then Err(UnterminatedString)
    else if s[0] == '\\' then
      if |s| == 1 then Err(UnterminatedEscape)
      else
        var t :- LexString(s[2..], quote);
        Ok((Unescape(s[1]) + t.0, t.1))
    else if s[0] == quote then Ok(("", s[1..]))
    else
      var t :- LexString(s[1..], quote);
      Ok(([s[0]] + t.0, t.1))
  }

  predicate LooksFloat(raw: string) { '.' in raw || 'e' in raw || 'E' in raw }

  /** Digits, optionally a fraction, optionally an exponent: the float texts a
      raw number starting with a digit may have. */
  predicate ValidFloat(raw: string) {
    var n := Run(raw, IsDigit);
    n > 0 && ValidExponent(AfterFraction(raw[n..]))
  }

  function AfterFraction(s: string): string {
    if s != "" && s[0] == '.' then s[1 + Run(s[1..], IsDigit)..] else s
  }

  predicate ValidExponent(s: string) {
    s == "" ||
    ((s[0] == 'e' || s[0] == 'E') &&
     var digits := if |s| > 1 && (s[1] == '+' || s[1] == '-') then s[2..] else s[1..];
     digits != "" && AllDigits(digits))
  }

  function NumberToken(raw: string): Result<Tok, ExprError> {
    if LooksFloat(raw) then
      if ValidFloat(raw) then Ok(TFloat(raw)) else Err(InvalidNumber)
    else if raw != "" && AllDigits(raw) && DigitsValue(raw) <= MAX_INT then Ok(TInt(DigitsValue(raw)))
    else Err(InvalidInteger)
  }

  function IdentToken(raw: string): Tok {
    if raw == "true" then TTrue
    else if raw == "false" then TFalse
    else if raw == "null" then TNull
    else TIdent(raw)
  }

  /** A string, number or identifier at the front of `s`. */
  function WordToken(s: string): (r: Result<(Tok, string), ExprError>)
    requires s != ""
    ensures r.Ok? ==> r.value.0 != TEnd && |r.value.1| < |s|
  {
    var c := s[0];
    if c == '"' || c == '\'' then
      var t :- LexString(s[1..], c);
      Ok((TStr(t.0), t.1))
    else if IsDigit(c) then
      var n := Run(s, IsNumberChar);
      var t :- NumberToken(s[..n]);
      Ok((t, s[n..]))
    else if IsIdentStart(c) then
      var n := Run(s, IsIdentChar);
      Ok((IdentToken(s[..n]), s[n..]))
    else Err(UnexpectedChar)
  }

  /** One token from the front of `s`, and what is left. */
  function Token(s: string): (r: Result<(Tok, string), ExprError>)
    ensures r.Ok? && r.value.0 != TEnd ==> |r.value.1| < |s|
  {
    var s := SkipWs(s);
    if s == "" then Ok((TEnd, ""))
    else
      var second := if |s| > 1 then s[1] else ' ';
      match s[0]
      case '(' => Ok((TLParen, s[1..]))
      case ')' => Ok((TRParen, s[1..]))
      case '&' => if second == '&' then Ok((TAnd, s[2..])) else Err(ExpectedAnd)
      case '|' => if second == '|' then Ok((TOr, s[2..])) else Err(ExpectedOr)
      case '!' => if second == '=' then Ok((TNe, s[2..])) else Ok((TNot, s[1..]))
      case '=' => if second == '=' then Ok((TEqEq, s[2..])) else Err(ExpectedEq)
      case '<' => if second == '=' then Ok((TLe, s[2..])) else Ok((TLt, s[1..]))
      case '>' => if second == '=' then Ok((TGe, s[2..])) else Ok((TGt, s[1..]))
      case _ => WordToken(s)
  }

  function Tokens(s: string): Result<seq<Tok>, ExprError>
    decreases |s|
  {
    var t :- Token(s);
    if t.0 == TEnd then Ok([TEnd])
    else
      var rest :- Tokens(t.1);
      Ok([t.0] + rest)
  }

  // -------------------------------------------------------------------- parser

  type Parsed = Result<(Expr, seq<Tok>), ExprError>

  function Peek(ts: seq<Tok>): Tok { if ts == [] then TEnd else ts[0] }

  function Drop(ts: seq<Tok>): seq<Tok> { if ts == [] then [] else ts[1..] }

  function CmpOpOf(t: Tok): Option<CmpOp> {
    match t
    case TEqEq => Some(Eq)
    case TNe => Some(Ne)
    case TLt => Some(Lt)
    case TLe => Some(Le)
    case TGt => Some(Gt)
    case TGe => Some(Ge)
    case _ => None
  }

  function ParseOr(ts: seq<Tok>): (r: Parsed)
    ensures r.Ok? ==> |r.value.1| < |ts|
    decreases |ts|, 6
  {
    var l :- ParseAnd(ts);
    ParseOrRest(l.0, l.1)
  }

  function ParseOrRest(left: Expr, ts: seq<Tok>): (r: Parsed)
    ensures r.Ok? ==> |r.value.1| <= |ts|
    decreases |ts|, 5
  {
    if Peek(ts) != TOr then Ok((left, ts))
    else
      var rt :- ParseAnd(ts[1..]);
      ParseOrRest(Or(left, rt.0), rt.1)
  }

  function ParseAnd(ts: seq<Tok>): (r: Parsed)
    ensures r.Ok? ==> |r.value.1| < |ts|
    decreases |ts|, 4
  {
    var l :- ParseNot(ts);
    ParseAndRest(l.0, l.1)
  }

  function ParseAndRest(left: Expr, ts: seq<Tok>): (r: Parsed)
    ensures r.Ok? ==> |r.value.1| <= |ts|
    decreases |ts|, 3
  {
    if Peek(ts) != TAnd then Ok((left, ts))
    else
      var rt :- ParseNot(ts[1..]);
      ParseAndRest(And(left, rt.0), rt.1)
  }

  function ParseNot(ts: seq<Tok>): (r: Parsed)
    ensures r.Ok? ==> |r.value.1| < |ts|
    decreases |ts|, 2
  {
    if Peek(ts) == TNot then
      var i :- ParseNot(ts[1..]);
      Ok((Not(i.0), i.1))
    else ParseCmp(ts)
  }

  function ParseCmp(ts: seq<Tok>): (r: Parsed)
    ensures r.Ok? ==> |r.value.1| < |ts|
    decreases |ts|, 1
  {
    var l :- ParsePrimary(ts);
    match CmpOpOf(Peek(l.1))
    case None => Ok(l)
    case Some(op) =>
      var rt :- ParsePrimary(l.1[1..]);
      Ok((Cmp(l.0, op, rt.0), rt.1))
  }

  function ParsePrimary(ts: seq<Tok>): (r: Parsed)
    ensures r.Ok? ==> |r.value.1| < |ts|
    decreases |ts|, 0
  {
    var rest := Drop(ts);
    match Peek(ts)
    case TLParen =>
      var e :- ParseOr(rest);
      if Peek(e.1) == TRParen then Ok((e.0, Drop(e.1))) else Err(ExpectedParen)
    case TStr(s) => Ok((Str(s), rest))
    case TInt(i) => Ok((Int(i), rest))
    case TFloat(f) => Ok((Float(f), rest))
    case TTrue => Ok((Bool(true), rest))
    case TFalse => Ok((Bool(false), rest))
    case TNull => Ok((Null, rest))
    case TIdent(name) =>
      var e :- ResolveRef(name);
      Ok((e, rest))
    case _ => Err(UnexpectedToken)
  }

  function ResolveRef(name: string): Result<Expr, ExprError> {
    if name == "item" then Ok(Item)
    else
      var parts := Split(name, '.');
      if "" in parts then Err(InvalidReference)
      else if parts[0] == "vars" then
        if |parts| == 2 then Ok(Var(parts[1])) else Err(InvalidReference)
      else if parts[0] == "facts" then Ok(Fact(parts[1..]))
      else if parts[0] == "registers" then
        if |parts| == 3 then Ok(Register(parts[1], parts[2])) else Err(InvalidReference)
      else if parts[0] == "result" then
        if |parts| == 2 then Ok(ResultField(parts[1])) else Err(InvalidReference)
      else if parts[0] == "template" then
        if |parts| == 2 then Ok(TemplateVar(parts[1])) else Err(InvalidReference)
      else Err(BareName)
  }

  function ParseExpr(src: string): Result<Expr, ExprError> {
    var ts :- Tokens(src);
    var p :- ParseOr(ts);
    if Peek(p.1) == TEnd then Ok(p.0) else Err(TrailingTokens)
  }
}
