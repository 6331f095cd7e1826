/** Printing expressions with the fewest parentheses the grammar needs, and the
    proof that lexing and parsing undo it. */
module Printing {
  import opened Wrappers
  import opened Text
  import opened Syntax

  predicate IsName(s: string) {
    s != "" && forall i :: 0 <= i < |s| ==> IsIdentChar(s[i]) && s[i] != '.'
  }

  /** The trees that have a source text (also: the trees parsing produces, see `ParsedIsPrintable`). */
  predicate Printable(e: Expr) {
    match e
    case Or(a, b) => Printable(a) && Printable(b)
    case And(a, b) => Printable(a) && Printable(b)
    case Not(a) => Printable(a)
    case Cmp(a, _, b) => Printable(a) && Printable(b)
    case Var(n) => IsName(n)
    case Fact(path) => forall p :: p in path ==> IsName(p)
    case Register(n, f) => IsName(n) && IsName(f)
    case ResultField(f) => IsName(f)
    case TemplateVar(n) => IsName(n)
    case Int(i) => 0 <= i <= MAX_INT
    case Float(t) => LooksFloat(t) && ValidFloat(t)
    case _ => true
  }

  // ------------------------------------------------------------------- printing

  /** Binding strength: 0 `||`, 1 `&&`, 2 `!`, 3 comparison, 4 everything else. */
  function Level(e: Expr): nat {
    match e
    case Or(_, _) => 0
    case And(_, _) => 1
    case Not(_) => 2
    case Cmp(_, _, _) => 3
    case _ => 4
  }

  function OpTok(op: CmpOp): Tok {
    match op
    case Eq => TEqEq
    case Ne => TNe
    case Lt => TLt
    case Le => TLe
    case Gt => TGt
    case Ge => TGe
  }

  function RefParts(e: Expr): seq<string> {
    match e
    case Var(n) => ["vars", n]
    case Fact(path) => ["facts"] + path
    case Register(n, f) => ["registers", n, f]
    case ResultField(f) => ["result", f]
    case TemplateVar(n) => ["template", n]
    case _ => ["item"]
  }

  predicate IsRef(e: Expr) {
    e.Var? || e.Fact? || e.Register? || e.Item? || e.ResultField? || e.TemplateVar?
  }

  function RefText(e: Expr): string { Join(RefParts(e), ".") }

  /** The tokens of `e` where at least binding strength `min` is expected. */
  function PrintTokens(e: Expr, min: nat): seq<Tok> {
    var body := match e
      case Or(a, b) => PrintTokens(a, 0) + [TOr] + PrintTokens(b, 1)
      case And(a, b) => PrintTokens(a, 1) + [TAnd] + PrintTokens(b, 2)
      case Not(a) => [TNot] + PrintTokens(a, 2)
      case Cmp(a, op, b) => PrintTokens(a, 4) + [OpTok(op)] + PrintTokens(b, 4)
      case Str(s) => [TStr(s)]
      case Int(i) => [TInt(i)]
      case Float(t) => [TFloat(t)]
      case Bool(b) => [if b then TTrue else TFalse]
      case Null => [TNull]
      case _ => [TIdent(RefText(e))];
    if Level(e) < min then [TLParen] + body + [TRParen] else body
  }

  function EscapeString(s: string): string {
    if s == "" then "" else EscapeChar(s[0]) + EscapeString(s[1..])
  }

  function EscapeChar(c: char): string {
    if c == '\\' || c == '"' then ['\\', c] else [c]
  }

  function Show(t: Tok): string {
    match t
    case TIdent(n) => n
    case TStr(s) => "\"" + EscapeString(s) + "\""
    case TInt(i) => if i < 0 then "" else Decimal(i)
    case TFloat(f) => f
    case TTrue => "true"
    case TFalse => "false"
    case TNull => "null"
    case TAnd => "&&"
    case TOr => "||"
    case TNot => "!"
    case TEqEq => "=="
    case TNe => "!="
    case TLt => "<"
    case TLe => "<="
    case TGt => ">"
    case TGe => ">="
    case TLParen => "("
    case TRParen => ")"
    case TEnd => ""
  }

  function Render(ts: seq<Tok>): string {
    if ts == [] then "" else Show(ts[0]) + " " + Render(ts[1..])
  }

  function Print(e: Expr): string { Render(PrintTokens(e, 0)) }

  // ------------------------------------------------------------ parsing inverts

  lemma ResolvePrinted(e: Expr)
    requires Printable(e) && IsRef(e)
    ensures ResolveRef(RefText(e)) == Ok(e)
  {
    hide Split;
    SplitJoin(RefParts(e), '.');
    NotKeyword(RefParts(e), "item");
  }

  /** A joined reference is no dotless word other than its own first piece. */
  lemma NotKeyword(parts: seq<string>, word: string)
    requires |parts| >= 1 && '.' !in word
    requires forall p :: p in parts ==> '.' !in p
    ensures Join(parts, ".") == word ==> parts == [word]
  {
    SplitJoin(parts, '.');
    SplitHead(word, '.', "");
  }

  // What printing puts in front of `rest`, one node at a time.

  lemma Regroup<T>(left: seq<T>, op: seq<T>, right: seq<T>, rest: seq<T>)
    ensures left + op + right + rest == left + (op + (right + rest))
  {
  }

  lemma PrintParens(e: Expr, min: nat, rest: seq<Tok>)
    requires Level(e) < min
    ensures PrintTokens(e, min) + rest == [TLParen] + (PrintTokens(e, 0) + ([TRParen] + rest))
  {
  }

  lemma PrintNot(a: Expr, rest: seq<Tok>)
    ensures PrintTokens(Not(a), 2) + rest == [TNot] + (PrintTokens(a, 2) + rest)
  {
    hide RefText;
  }

  lemma PrintCmp(a: Expr, op: CmpOp, b: Expr, rest: seq<Tok>)
    ensures PrintTokens(Cmp(a, op, b), 2) + rest
         == PrintTokens(a, 4) + ([OpTok(op)] + (PrintTokens(b, 4) + rest))
  {
    hide RefText, OpTok;
    Regroup(PrintTokens(a, 4), [OpTok(op)], PrintTokens(b, 4), rest);
  }

  lemma PrintAnd(a: Expr, b: Expr, rest: seq<Tok>)
    ensures PrintTokens(And(a, b), 1) + rest
         == PrintTokens(a, 1) + ([TAnd] + (PrintTokens(b, 2) + rest))
  {
    hide RefText;
    Regroup(PrintTokens(a, 1), [TAnd], PrintTokens(b, 2), rest);
  }

  lemma PrintOr(a: Expr, b: Expr, rest: seq<Tok>)
    ensures PrintTokens(Or(a, b), 0) + rest
         == PrintTokens(a, 0) + ([TOr] + (PrintTokens(b, 1) + rest))
  {
    hide RefText;
    Regroup(PrintTokens(a, 0), [TOr], PrintTokens(b, 1), rest);
  }

  /** Where both strengths agree on the parentheses, they print alike. */
  lemma PrintAlike(e: Expr, min: nat, min': nat)
    requires Level(e) < min <==> Level(e) < min'
    ensures PrintTokens(e, min) == PrintTokens(e, min')
  {
  }

  // What parsing does with it.

  /** The tree of an atom's token. */
  function AtomOf(t: Tok): Result<Expr, ExprError> {
    match t
    case TStr(s) => Ok(Str(s))
    case TInt(i) => Ok(Int(i))
    case TFloat(f) => Ok(Float(f))
    case TTrue => Ok(Bool(true))
    case TFalse => Ok(Bool(false))
    case TNull => Ok(Null)
    case TIdent(name) => ResolveRef(name)
    case _ => Err(UnexpectedToken)
  }

  lemma PrimaryAtom(t: Tok, rest: seq<Tok>)
    requires AtomOf(t).Ok?
    ensures ParsePrimary([t] + rest) == Ok((AtomOf(t).value, rest))
  {
    hide ParseOr, ResolveRef;
    assert ([t] + rest)[1..] == rest;
  }

  lemma PrintedRef(e: Expr)
    requires IsRef(e)
    ensures PrintTokens(e, 4) == [TIdent(RefText(e))]
  {
    hide RefText;
  }

  lemma PrintedLiteral(e: Expr)
    requires Level(e) == 4 && !IsRef(e)
    ensures |PrintTokens(e, 4)| == 1 && AtomOf(PrintTokens(e, 4)[0]) == Ok(e)
  {
    hide ResolveRef, RefText;
  }

  lemma PrintedAtom(e: Expr)
    requires Printable(e) && Level(e) == 4
    ensures |PrintTokens(e, 4)| == 1 && AtomOf(PrintTokens(e, 4)[0]) == Ok(e)
  {
    if IsRef(e) {
      ResolvePrinted(e);
      PrintedRef(e);
      hide Printable, ResolveRef, RefText, PrintTokens, IsRef, Level;
    } else {
      PrintedLiteral(e);
      hide Printable, ResolveRef, RefText, PrintTokens, IsRef, Level, AtomOf;
    }
  }

  lemma AtomStep(e: Expr, rest: seq<Tok>)
    requires Printable(e) && Level(e) == 4
    ensures ParsePrimary(PrintTokens(e, 4) + rest) == Ok((e, rest))
  {
    hide ParsePrimary, PrintTokens, AtomOf, Printable, Level;
    PrintedAtom(e);
    PrimaryAtom(PrintTokens(e, 4)[0], rest);
    assert PrintTokens(e, 4) == [PrintTokens(e, 4)[0]];
  }

  lemma ParensStep(e: Expr, inner: seq<Tok>, rest: seq<Tok>)
    requires ParseOr(inner) == Ok((e, [TRParen] + rest))
    ensures ParsePrimary([TLParen] + inner) == Ok((e, rest))
  {
    hide ParseOr;
    assert ([TLParen] + inner)[1..] == inner && ([TRParen] + rest)[1..] == rest;
  }

  lemma PrimaryStep(ts: seq<Tok>, e: Expr, rest: seq<Tok>)
    requires ParsePrimary(ts) == Ok((e, rest)) && CmpOpOf(Peek(rest)) == None
    ensures ParseNot(ts) == Ok((e, rest))
  {
    assert Peek(ts) != TNot;
    assert ParseCmp(ts) == Ok((e, rest));
  }

  lemma CmpStep(ts: seq<Tok>, a: Expr, op: CmpOp, b: Expr, mid: seq<Tok>, rest: seq<Tok>)
    requires ParsePrimary(ts) == Ok((a, [OpTok(op)] + mid)) && ParsePrimary(mid) == Ok((b, rest))
    ensures ParseNot(ts) == Ok((Cmp(a, op, b), rest))
  {
    assert Peek(ts) != TNot;
    assert ([OpTok(op)] + mid)[1..] == mid;
    assert ParseCmp(ts) == Ok((Cmp(a, op, b), rest));
  }

  lemma NotStep(a: Expr, mid: seq<Tok>, rest: seq<Tok>)
    requires ParseNot(mid) == Ok((a, rest))
    ensures ParseNot([TNot] + mid) == Ok((Not(a), rest))
  {
    hide ParseCmp;
    assert ([TNot] + mid)[1..] == mid;
  }

  lemma AndStep(a: Expr, b: Expr, mid: seq<Tok>, rest: seq<Tok>)
    requires ParseNot(mid) == Ok((b, rest))
    ensures ParseAndRest(a, [TAnd] + mid) == ParseAndRest(And(a, b), rest)
  {
    hide ParseNot;
    assert ([TAnd] + mid)[1..] == mid;
  }

  lemma OrStep(a: Expr, b: Expr, mid: seq<Tok>, rest: seq<Tok>)
    requires ParseAnd(mid) == Ok((b, rest))
    ensures ParseOrRest(a, [TOr] + mid) == ParseOrRest(Or(a, b), rest)
  {
    hide ParseAnd;
    assert ([TOr] + mid)[1..] == mid;
  }

  /** Termination: a tree that needs parentheses at `min` is visited once more inside them. */
  function Rank(e: Expr, min: nat): nat
    requires min <= 4
  {
    (if Level(e) < min then 10 else 0) + 5 - min
  }

  lemma {:induction false} PrimaryInverts(e: Expr, rest: seq<Tok>)
    requires Printable(e)
    ensures ParsePrimary(PrintTokens(e, 4) + rest) == Ok((e, rest))
    decreases e, Rank(e, 4)
  {
    hide PrintTokens, ParsePrimary, Printable, ParseOr;
    if Level(e) < 4 {
      OrInverts(e, [TRParen] + rest);
      PrintParens(e, 4, rest);
      ParensStep(e, PrintTokens(e, 0) + ([TRParen] + rest), rest);
    } else {
      AtomStep(e, rest);
    }
  }

  lemma {:induction false} NotInverts(e: Expr, rest: seq<Tok>)
    requires Printable(e) && CmpOpOf(Peek(rest)) == None
    ensures ParseNot(PrintTokens(e, 2) + rest) == Ok((e, rest))
    decreases e, Rank(e, 2)
  {
    hide PrintTokens, ParsePrimary, ParseNot;
    match e {
      case Not(a) =>
        NotInverts(a, rest);
        PrintNot(a, rest);
        NotStep(a, PrintTokens(a, 2) + rest, rest);
      case Cmp(a, op, b) =>
        var mid := PrintTokens(b, 4) + rest;
        PrimaryInverts(a, [OpTok(op)] + mid);
        PrimaryInverts(b, rest);
        PrintCmp(a, op, b, rest);
        CmpStep(PrintTokens(e, 2) + rest, a, op, b, mid, rest);
      case _ =>
        PrimaryInverts(e, rest);
        PrintAlike(e, 2, 4);
        PrimaryStep(PrintTokens(e, 2) + rest, e, rest);
    }
  }

  lemma {:induction false} AndInverts(e: Expr, rest: seq<Tok>)
    requires Printable(e) && CmpOpOf(Peek(rest)) == None
    ensures ParseAnd(PrintTokens(e, 1) + rest) == ParseAndRest(e, rest)
    decreases e, Rank(e, 1)
  {
    hide PrintTokens, ParseNot, ParseAndRest;
    match e {
      case And(a, b) =>
        var mid := PrintTokens(b, 2) + rest;
        AndInverts(a, [TAnd] + mid);
        NotInverts(b, rest);
        PrintAnd(a, b, rest);
        AndStep(a, b, mid, rest);
      case _ =>
        NotInverts(e, rest);
        PrintAlike(e, 1, 2);
    }
  }

  lemma {:induction false} OrInverts(e: Expr, rest: seq<Tok>)
    requires Printable(e) && CmpOpOf(Peek(rest)) == None && Peek(rest) != TAnd
    ensures ParseOr(PrintTokens(e, 0) + rest) == ParseOrRest(e, rest)
    ensures Peek(rest) != TOr ==> ParseOr(PrintTokens(e, 0) + rest) == Ok((e, rest))
    decreases e, Rank(e, 0)
  {
    hide PrintTokens, ParseAnd, ParseNot;
    match e {
      case Or(a, b) =>
        var mid := PrintTokens(b, 1) + rest;
        OrInverts(a, [TOr] + mid);
        AndInverts(b, rest);
        PrintOr(a, b, rest);
        OrStep(a, b, mid, rest);
      case _ =>
        AndInverts(e, rest);
        PrintAlike(e, 0, 1);
    }
  }

  // ------------------------------------------------------------- lexing inverts

  predicate IsIdent(s: string) {
    && s != "" && IsIdentStart(s[0])
    && (forall i :: 0 <= i < |s| ==> IsIdentChar(s[i]))
    && s !in ["true", "false", "null"]
  }

  /** The tokens the lexer produces, the end marker aside. */
  predicate Lexable(t: Tok) {
    match t
    case TIdent(n) => IsIdent(n)
    case TInt(i) => 0 <= i <= MAX_INT
    case TFloat(f) => LooksFloat(f) && ValidFloat(f)
    case TEnd => false
    case _ => true
  }

  lemma RunExact(t: string, rest: string, p: char -> bool)
    requires forall i :: 0 <= i < |t| ==> p(t[i])
    requires rest != "" ==> !p(rest[0])
    ensures Run(t + rest, p) == |t|
    ensures (t + rest)[..|t|] == t && (t + rest)[|t|..] == rest
  {
    assert forall i :: 0 <= i < |t| ==> (t + rest)[i] == t[i];
    assert rest != "" ==> (t + rest)[|t|] == rest[0];
  }

  lemma EscapeStringCons(s: string, tail: string)
    requires s != ""
    ensures EscapeString(s) + tail == EscapeChar(s[0]) + (EscapeString(s[1..]) + tail)
  {
  }

  lemma EscapeStringNil(tail: string)
    ensures EscapeString("") + tail == tail
  {
  }

  lemma RenderCons(ts: seq<Tok>, tail: string)
    requires ts != []
    ensures Render(ts) + tail == Show(ts[0]) + (" " + (Render(ts[1..]) + tail))
    ensures |Render(ts)| == |Show(ts[0])| + 1 + |Render(ts[1..])|
  {
    assert Render(ts) == Show(ts[0]) + " " + Render(ts[1..]);
    hide Render, Show;
    Regroup(Show(ts[0]), " ", Render(ts[1..]), tail);
  }

  lemma LexStringStep(c: char, tail: string, text: string, rest: string)
    requires LexString(tail, '"') == Ok((text, rest))
    ensures LexString(EscapeChar(c) + tail, '"') == Ok(([c] + text, rest))
  {
    assert ([c] + tail)[1..] == tail && (['\\', c] + tail)[2..] == tail;
  }

  lemma {:induction false} LexStringInverts(s: string, rest: string)
    ensures LexString(EscapeString(s) + ("\"" + rest), '"') == Ok((s, rest))
  {
    if s == "" {
      assert EscapeString(s) + ("\"" + rest) == "\"" + rest;
    } else {
      hide LexString, EscapeChar, EscapeString;
      LexStringInverts(s[1..], rest);
      LexStringStep(s[0], EscapeString(s[1..]) + ("\"" + rest), s[1..], rest);
      EscapeStringCons(s, "\"" + rest);
      assert [s[0]] + s[1..] == s;
    }
  }

  lemma StringInverts(s: string, rest: string)
    ensures Token(Show(TStr(s)) + rest) == Ok((TStr(s), rest))
  {
    hide LexString, EscapeString;
    LexStringInverts(s, rest);
    assert (Show(TStr(s)) + rest)[1..] == EscapeString(s) + ("\"" + rest);
  }

  predicate AllNumberChars(s: string) { forall i :: 0 <= i < |s| ==> IsNumberChar(s[i]) }

  lemma ExponentChars(x: string)
    requires ValidExponent(x)
    ensures AllNumberChars(x)
  {
  }

  lemma FractionChars(r: string)
    requires AllNumberChars(AfterFraction(r))
    ensures AllNumberChars(r)
  {
    if r != "" && r[0] == '.' {
      var k := Run(r[1..], IsDigit);
      assert forall i :: 1 <= i < 1 + k ==> r[i] == r[1..][i - 1];
      assert forall i :: 1 + k <= i < |r| ==> r[i] == AfterFraction(r)[i - 1 - k];
    }
  }

  lemma ValidFloatChars(f: string)
    requires ValidFloat(f)
    ensures AllNumberChars(f) && IsDigit(f[0])
  {
    var n := Run(f, IsDigit);
    ExponentChars(AfterFraction(f[n..]));
    FractionChars(f[n..]);
    assert forall i :: n <= i < |f| ==> f[i] == f[n..][i - n];
  }

  lemma NumberTokenInverts(t: Tok)
    requires Lexable(t) && (t.TInt? || t.TFloat?)
    ensures NumberToken(Show(t)) == Ok(t)
    ensures AllNumberChars(Show(t)) && Show(t) != "" && IsDigit(Show(t)[0])
  {
    hide Run;
    if t.TFloat? {
      ValidFloatChars(t.text);
    } else {
      DecimalValue(t.value);
      assert forall c :: c in Decimal(t.value) ==> IsDigit(c);
    }
  }

  lemma NumberInverts(t: Tok, rest: string)
    requires Lexable(t) && (t.TInt? || t.TFloat?)
    ensures Token(Show(t) + (" " + rest)) == Ok((t, " " + rest))
  {
    hide NumberToken, LexString, Show, Lexable, Run;
    NumberTokenInverts(t);
    RunExact(Show(t), " " + rest, IsNumberChar);
  }

  lemma WordInverts(raw: string, rest: string)
    requires raw != "" && IsIdentStart(raw[0])
    requires forall i :: 0 <= i < |raw| ==> IsIdentChar(raw[i])
    ensures Token(raw + (" " + rest)) == Ok((IdentToken(raw), " " + rest))
  {
    RunExact(raw, " " + rest, IsIdentChar);
  }

  lemma SymbolInverts(t: Tok, rest: string)
    requires t.TAnd? || t.TOr? || t.TNot? || t.TLParen? || t.TRParen? || CmpOpOf(t).Some?
    ensures Token(Show(t) + (" " + rest)) == Ok((t, " " + rest))
  {
    var s := Show(t) + (" " + rest);
    assert s[|Show(t)|..] == " " + rest;
  }

  lemma TokenInverts(t: Tok, rest: string)
    requires Lexable(t)
    ensures Token(Show(t) + (" " + rest)) == Ok((t, " " + rest))
  {
    hide Token;
    match t {
      case TStr(s) =>
        StringInverts(s, " " + rest);
      case TInt(_) => NumberInverts(t, rest);
      case TFloat(_) => NumberInverts(t, rest);
      case TIdent(n) => WordInverts(n, rest);
      case TTrue => WordInverts("true", rest);
      case TFalse => WordInverts("false", rest);
      case TNull => WordInverts("null", rest);
      case _ => SymbolInverts(t, rest);
    }
  }

  lemma TokensCons(s: string, t: Tok, rest: string, ts: seq<Tok>)
    requires Token(s) == Ok((t, rest)) && t != TEnd && Tokens(rest) == Ok(ts)
    ensures Tokens(s) == Ok([t] + ts)
  {
  }

  lemma SpaceFirst(s: string)
    ensures Tokens(" " + s) == Tokens(s)
  {
    assert (" " + s)[1..] == s;
    assert SkipWs(" " + s) == SkipWs(s);
    assert Token(" " + s) == Token(s);
  }

  lemma EndOnly()
    ensures Tokens("") == Ok([TEnd])
  {
  }

  lemma {:induction false} LexInverts(ts: seq<Tok>)
    requires AllLexable(ts)
    ensures Tokens(Render(ts)) == Ok(ts + [TEnd])
  {
    hide Token, Show;
    if ts == [] {
      assert Tokens("") == Ok([TEnd]) by { EndOnly(); }
      assert ts + [TEnd] == [TEnd];
    } else {
      var tail := Render(ts[1..]);
      TokenInverts(ts[0], tail);
      assert Render(ts) == Show(ts[0]) + (" " + tail);
      LexInverts(ts[1..]);
      SpaceFirst(tail);
      TokensCons(Render(ts), ts[0], " " + tail, ts[1..] + [TEnd]);
      assert ts + [TEnd] == [ts[0]] + (ts[1..] + [TEnd]);
    }
  }

  predicate AllIdentChars(s: string) { forall i :: 0 <= i < |s| ==> IsIdentChar(s[i]) }

  lemma {:induction false} JoinIdentChars(parts: seq<string>)
    requires forall p :: p in parts ==> IsName(p)
    ensures AllIdentChars(Join(parts, "."))
  {
    if |parts| == 1 {
      assert parts[0] in parts;
    } else if |parts| > 1 {
      assert parts[0] in parts;
      JoinIdentChars(parts[1..]);
      assert AllIdentChars(parts[0] + ".");
    }
  }

  lemma RefTextIsIdent(e: Expr)
    requires Printable(e) && IsRef(e)
    ensures IsIdent(RefText(e))
  {
    hide Split;
    var parts := RefParts(e);
    assert forall p :: p in parts ==> IsName(p);
    JoinIdentChars(parts);
    assert RefText(e)[0] == parts[0][0];
    NotKeyword(parts, "true");
    NotKeyword(parts, "false");
    NotKeyword(parts, "null");
  }

  predicate AllLexable(ts: seq<Tok>) { forall i :: 0 <= i < |ts| ==> Lexable(ts[i]) }

  lemma JoinedLexable(a: seq<Tok>, t: Tok, b: seq<Tok>)
    requires AllLexable(a) && Lexable(t) && AllLexable(b)
    ensures AllLexable(a + [t] + b) && AllLexable([t] + b) && AllLexable([TLParen] + a + [TRParen])
  {
    hide Lexable;
    assert Lexable(TLParen) && Lexable(TRParen) by { BracketsLexable(); }
  }

  lemma BracketsLexable()
    ensures Lexable(TLParen) && Lexable(TRParen) && Lexable(TOr) && Lexable(TAnd) && Lexable(TNot)
    ensures forall op :: Lexable(OpTok(op))
  {
  }

  lemma PrintedShape(e: Expr, min: nat)
    ensures Level(e) < min ==> PrintTokens(e, min) == [TLParen] + PrintTokens(e, 0) + [TRParen]
    ensures Level(e) >= min ==> PrintTokens(e, min) == PrintTokens(e, 0)
    ensures e.Or? ==> PrintTokens(e, 0) == PrintTokens(e.left, 0) + [TOr] + PrintTokens(e.right, 1)
    ensures e.And? ==> PrintTokens(e, 0) == PrintTokens(e.left, 1) + [TAnd] + PrintTokens(e.right, 2)
    ensures e.Not? ==> PrintTokens(e, 0) == [TNot] + PrintTokens(e.inner, 2)
    ensures e.Cmp? ==> PrintTokens(e, 0) == PrintTokens(e.left, 4) + [OpTok(e.op)] + PrintTokens(e.right, 4)
  {
    hide RefText, OpTok;
  }

  lemma AtomLexable(e: Expr)
    requires Printable(e) && Level(e) == 4
    ensures AllLexable(PrintTokens(e, 0))
  {
    hide Join, RefParts, IsIdent, ValidFloat, LooksFloat, IsName;
    if IsRef(e) { RefTextIsIdent(e); }
  }

  lemma {:induction false} PrintedLexable(e: Expr, min: nat)
    requires Printable(e)
    ensures AllLexable(PrintTokens(e, min))
    decreases e, min
  {
    hide AllLexable, Lexable, PrintTokens, IsName;
    PrintedShape(e, min);
    BracketsLexable();
    if 0 < min {
      PrintedLexable(e, 0);
      JoinedLexable(PrintTokens(e, 0), TOr, PrintTokens(e, 0));
    } else {
      match e {
        case Or(a, b) =>
          PrintedLexable(a, 0);
          PrintedLexable(b, 1);
          JoinedLexable(PrintTokens(a, 0), TOr, PrintTokens(b, 1));
        case And(a, b) =>
          PrintedLexable(a, 1);
          PrintedLexable(b, 2);
          JoinedLexable(PrintTokens(a, 1), TAnd, PrintTokens(b, 2));
        case Not(a) =>
          PrintedLexable(a, 2);
          JoinedLexable(PrintTokens(a, 2), TNot, PrintTokens(a, 2));
        case Cmp(a, op, b) =>
          PrintedLexable(a, 4);
          PrintedLexable(b, 4);
          JoinedLexable(PrintTokens(a, 4), OpTok(op), PrintTokens(b, 4));
        case _ => AtomLexable(e);
      }
    }
  }

  lemma PrintedTokens(e: Expr)
    requires Printable(e)
    ensures Tokens(Print(e)) == Ok(PrintTokens(e, 0) + [TEnd])
  {
    hide Tokens, PrintTokens, Lexable, Render;
    PrintedLexable(e, 0);
    LexInverts(PrintTokens(e, 0));
  }

  lemma ParseTokens(src: string, e: Expr)
    requires Printable(e) && Tokens(src) == Ok(PrintTokens(e, 0) + [TEnd])
    ensures ParseExpr(src) == Ok(e)
  {
    hide Tokens, PrintTokens, ParseOr, Printable;
    OrInverts(e, [TEnd]);
  }

  /** Printing then parsing gives the tree back, also behind a leading space. */
  lemma ParsePrint(e: Expr)
    requires Printable(e)
    ensures ParseExpr(Print(e)) == Ok(e)
    ensures ParseExpr(" " + Print(e)) == Ok(e)
  {
    hide Tokens, PrintTokens, Print, ParseExpr, Printable;
    PrintedTokens(e);
    SpaceFirst(Print(e));
    ParseTokens(Print(e), e);
    ParseTokens(" " + Print(e), e);
  }

  // ---------------------------------------------------- only printables are parsed

  lemma {:induction false} SplitChars(s: string, sep: char)
    ensures forall p, c :: p in Split(s, sep) && c in p ==> c in s
  {
    if s != "" {
      SplitChars(s[1..], sep);
    }
  }

  lemma TokenLexable(s: string)
    ensures Token(s).Ok? && Token(s).value.0 != TEnd ==> Lexable(Token(s).value.0)
  {
  }

  lemma {:induction false} TokensLexable(s: string)
    ensures Tokens(s).Ok? ==> forall t :: t in Tokens(s).value ==> t == TEnd || Lexable(t)
    decreases |s|
  {
    var r := Token(s);
    TokenLexable(s);
    if r.Ok? && r.value.0 != TEnd {
      TokensLexable(r.value.1);
    }
  }

  lemma ResolvedPrintable(name: string)
    requires IsIdent(name)
    ensures ResolveRef(name).Ok? ==> Printable(ResolveRef(name).value)
  {
    SplitChars(name, '.');
    forall p | p in Split(name, '.') && p != ""
      ensures IsName(p)
    {
      forall i | 0 <= i < |p|
        ensures IsIdentChar(p[i]) && p[i] != '.'
      {
        assert p[i] in p;
        assert p[i] in name;
      }
    }
  }

  /** Parsing only Lexable tokens at grammar level `level` gives a printable tree and
      leaves Lexable tokens. */
  ghost predicate GoodParse(ts: seq<Tok>, r: Parsed) {
    r.Ok? ==> Printable(r.value.0) && Suffix(ts, r.value.1)
  }

  ghost predicate Suffix(ts: seq<Tok>, rest: seq<Tok>) {
    forall t :: t in rest ==> t in ts
  }

  ghost predicate FromLexer(ts: seq<Tok>) {
    forall t :: t in ts ==> t == TEnd || Lexable(t)
  }

  lemma {:induction false} OrPrintable(ts: seq<Tok>)
    requires FromLexer(ts)
    ensures GoodParse(ts, ParseOr(ts))
    decreases |ts|, 6
  {
    AndPrintable(ts);
    var l := ParseAnd(ts);
    if l.Ok? { OrRestPrintable(l.value.0, l.value.1); }
  }

  lemma {:induction false} OrRestPrintable(left: Expr, ts: seq<Tok>)
    requires Printable(left) && FromLexer(ts)
    ensures GoodParse(ts, ParseOrRest(left, ts))
    decreases |ts|, 5
  {
    if Peek(ts) == TOr {
      AndPrintable(ts[1..]);
      var rt := ParseAnd(ts[1..]);
      if rt.Ok? { OrRestPrintable(Or(left, rt.value.0), rt.value.1); }
    }
  }

  lemma {:induction false} AndPrintable(ts: seq<Tok>)
    requires FromLexer(ts)
    ensures GoodParse(ts, ParseAnd(ts))
    decreases |ts|, 4
  {
    NotPrintable(ts);
    var l := ParseNot(ts);
    if l.Ok? { AndRestPrintable(l.value.0, l.value.1); }
  }

  lemma {:induction false} AndRestPrintable(left: Expr, ts: seq<Tok>)
    requires Printable(left) && FromLexer(ts)
    ensures GoodParse(ts, ParseAndRest(left, ts))
    decreases |ts|, 3
  {
    if Peek(ts) == TAnd {
      NotPrintable(ts[1..]);
      var rt := ParseNot(ts[1..]);
      if rt.Ok? { AndRestPrintable(And(left, rt.value.0), rt.value.1); }
    }
  }

  lemma {:induction false} NotPrintable(ts: seq<Tok>)
    requires FromLexer(ts)
    ensures GoodParse(ts, ParseNot(ts))
    decreases |ts|, 2
  {
    if Peek(ts) == TNot {
      NotPrintable(ts[1..]);
    } else {
      CmpPrintable(ts);
    }
  }

  lemma {:induction false} CmpPrintable(ts: seq<Tok>)
    requires FromLexer(ts)
    ensures GoodParse(ts, ParseCmp(ts))
    decreases |ts|, 1
  {
    PrimaryPrintable(ts);
    var l := ParsePrimary(ts);
    if l.Ok? && CmpOpOf(Peek(l.value.1)).Some? {
      PrimaryPrintable(l.value.1[1..]);
    }
  }

  lemma {:induction false} PrimaryPrintable(ts: seq<Tok>)
    requires FromLexer(ts)
    ensures GoodParse(ts, ParsePrimary(ts))
    decreases |ts|, 0
  {
    if ts != [] {
      assert ts[0] in ts;
      match ts[0] {
        case TLParen => OrPrintable(Drop(ts));
        case TIdent(name) => ResolvedPrintable(name);
        case _ =>
      }
    }
  }

  lemma ParsedIsPrintable(src: string)
    ensures ParseExpr(src).Ok? ==> Printable(ParseExpr(src).value)
  {
    TokensLexable(src);
    if Tokens(src).Ok? {
      OrPrintable(Tokens(src).value);
    }
  }

  /** The trees that have a source text are exactly the printable ones. */
  lemma ParserImage(e: Expr)
    ensures (exists src :: ParseExpr(src) == Ok(e)) <==> Printable(e)
  {
    if Printable(e) {
      ParsePrint(e);
    }
    forall src | ParseExpr(src) == Ok(e)
      ensures Printable(e)
    {
      ParsedIsPrintable(src);
    }
  }

  /** Whatever parses, printing it is a normal form of the same expression. */
  lemma ReparsePrinted(src: string)
    requires ParseExpr(src).Ok?
    ensures ParseExpr(Print(ParseExpr(src).value)) == ParseExpr(src)
  {
    ParsedIsPrintable(src);
    ParsePrint(ParseExpr(src).value);
  }
}
