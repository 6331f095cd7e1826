/** Splitting text into literals and `{{ expression }}` segments. */
module Interpolation {
  import opened Wrappers
  import opened Text
  import opened Syntax
  import opened Printing
  import Parsing

  datatype Segment = Literal(text: string) | Ex(expr: Expr)

  type Segmented = Result<seq<Segment>, ExprError>

  /** `\{{`, which stands for a literal `{{`. */
  predicate StartsEscape(s: string) { |s| > 2 && s[0] == '\\' && s[1] == '{' && s[2] == '{' }

  predicate StartsOpen(s: string) { |s| > 1 && s[0] == '{' && s[1] == '{' }

  predicate StartsClose(s: string) { |s| > 1 && s[0] == '}' && s[1] == '}' }

  function Shift(n: nat, r: Option<nat>): Option<nat> {
    if r.Some? then Some(n + r.value) else None
  }

  /** Offset of the first `}}` outside quotes, starting inside `quote` if any. */
  function CloseOffset(s: string, quote: Option<char>): (r: Option<nat>)
    ensures r.Some? ==> r.value + 1 < |s| && StartsClose(s[r.value..])
  {
    if s == "" then None
    else if quote.Some? then
      if s[0] == '\\' then
        if |s| == 1 then None else Shift(2, CloseOffset(s[2..], quote))
      else Shift(1, CloseOffset(s[1..], if s[0] == quote.value then None else quote))
    else if s[0] == '"' || s[0] == '\'' then Shift(1, CloseOffset(s[1..], Some(s[0])))
    else if StartsClose(s) then Some(0)
    else Shift(1, CloseOffset(s[1..], None))
  }

  function Flush(lit: string): seq<Segment> { if lit == "" then [] else [Literal(lit)] }

  /** The segments of `s`, given the literal text `lit` already read before it. */
  function Segments(s: string, lit: string): Segmented
    decreases |s|
  {
    if s == "" then Ok(Flush(lit))
    else if StartsEscape(s) then Segments(s[3..], lit + "{{")
    else if StartsOpen(s) then
      var body := s[2..];
      match CloseOffset(body, None)
      case None => Err(UnterminatedInterpolation)
      case Some(end) =>
        var e :- ParseExpr(body[..end]);
        var rest :- Segments(body[end + 2..], "");
        Ok(Flush(lit) + [Ex(e)] + rest)
    else Segments(s[1..], lit + [s[0]])
  }

  function SplitInterpolation(s: string): Segmented {
    var segs :- Segments(s, "");
    Ok(if segs == [] then [Literal("")] else segs)
  }

  predicate HasInterpolation(s: string) {
    s != "" &&
    if StartsEscape(s) then HasInterpolation(s[3..])
    else StartsOpen(s) || HasInterpolation(s[1..])
  }

  // ----------------------------------------------------- the loops of the source

  /** Index of the closing `}}` when scanning `chars` from `i` inside `quote`. */
  function CloseFrom(chars: string, i: nat, quote: Option<char>): Option<nat> {
    if i <= |chars| then Shift(i, CloseOffset(chars[i..], quote)) else None
  }

  lemma QuotedStep(chars: string, i: nat, q: char)
    requires i < |chars|
    ensures CloseFrom(chars, i, Some(q)) ==
      if chars[i] == '\\' then CloseFrom(chars, i + 2, Some(q))
      else CloseFrom(chars, i + 1, if chars[i] == q then None else Some(q))
  {
    assert chars[i..][1..] == chars[i + 1..];
    assert i + 2 <= |chars| ==> chars[i..][2..] == chars[i + 2..];
  }

  lemma PlainStep(chars: string, i: nat)
    requires i < |chars|
    ensures CloseFrom(chars, i, None) ==
      if chars[i] == '"' || chars[i] == '\'' then CloseFrom(chars, i + 1, Some(chars[i]))
      else if chars[i] == '}' && i + 1 < |chars| && chars[i + 1] == '}' then Some(i)
      else CloseFrom(chars, i + 1, None)
  {
    assert chars[i..][1..] == chars[i + 1..];
  }

  lemma FromStart(chars: string, start: nat)
    requires start <= |chars|
    ensures CloseFrom(chars, start, None) == Shift(start, CloseOffset(chars[start..], None))
  {
  }

  lemma PastEnd(chars: string, i: nat, quote: Option<char>)
    requires i >= |chars|
    ensures CloseFrom(chars, i, quote) == None
  {
  }

  method FindClose(chars: string, start: nat) returns (r: Option<nat>)
    requires start <= |chars|
    ensures r == Shift(start, CloseOffset(chars[start..], None))
  {
    hide CloseFrom;
    var i := start;
    var quote: Option<char> := None;
    FromStart(chars, start);
    while i < |chars|
      invariant CloseFrom(chars, start, None) == CloseFrom(chars, i, quote)
    {
      var c := chars[i];
      if quote.Some? {
        QuotedStep(chars, i, quote.value);
        if c == '\\' {
          i := i + 2;
          continue;
        }
        if c == quote.value { quote := None; }
      } else {
        PlainStep(chars, i);
        if c == '"' || c == '\'' {
          quote := Some(c);
        } else if c == '}' && i + 1 < |chars| && chars[i + 1] == '}' {
          return Some(i);
        }
      }
      i := i + 1;
    }
    PastEnd(chars, i, quote);
    r := None;
  }

  /** `all` is `rest` with `segs` in front. */
  ghost predicate After(segs: seq<Segment>, rest: Segmented, all: Segmented) {
    match rest
    case Ok(more) => all == Ok(segs + more)
    case Err(e) => all == Err(e)
  }

  lemma AfterExpression(segs: seq<Segment>, lit: string, here: string, end: nat, e: Expr, all: Segmented)
    requires After(segs, Segments(here, lit), all)
    requires StartsOpen(here) && CloseOffset(here[2..], None) == Some(end)
    requires ParseExpr(here[2..][..end]) == Ok(e)
    ensures After(segs + Flush(lit) + [Ex(e)], Segments(here[2..][end + 2..], ""), all)
  {
    var rest := Segments(here[2..][end + 2..], "");
    assert rest.Ok? ==> segs + (Flush(lit) + [Ex(e)] + rest.value) == segs + Flush(lit) + [Ex(e)] + rest.value;
  }

  lemma AfterText(segs: seq<Segment>, lit: string, here: string, all: Segmented)
    requires After(segs, Segments(here, lit), all) && here != ""
    ensures StartsEscape(here) ==> After(segs, Segments(here[3..], lit + "{{"), all)
    ensures !StartsEscape(here) && !StartsOpen(here) ==> After(segs, Segments(here[1..], lit + [here[0]]), all)
  {
  }

  lemma AfterOpen(segs: seq<Segment>, lit: string, here: string, all: Segmented)
    requires After(segs, Segments(here, lit), all) && StartsOpen(here)
    ensures match CloseOffset(here[2..], None)
            case None => all == Err(UnterminatedInterpolation)
            case Some(end) => ParseExpr(here[2..][..end]).Err? ==> all == Err(ParseExpr(here[2..][..end]).error)
  {
  }

  lemma AfterNothing(all: Segmented)
    ensures After([], all, all)
  {
    assert all.Ok? ==> [] + all.value == all.value;
  }

  lemma AfterEnd(segs: seq<Segment>, lit: string, all: Segmented)
    requires After(segs, Segments("", lit), all)
    ensures all == Ok(segs + Flush(lit))
  {
  }

  /** The body of an interpolation opened at `i` and what follows its close, as slices of the whole. */
  lemma BodySlices(s: string, i: nat, end: nat)
    requires i + 2 <= end && end + 2 <= |s|
    ensures s[i..][2..][..end - (i + 2)] == s[i + 2..end]
    ensures s[i..][2..][end - (i + 2) + 2..] == s[end + 2..]
  {
  }

  lemma Advance(s: string, i: nat, n: nat)
    requires i + n <= |s|
    ensures s[i..][n..] == s[i + n..]
  {
  }

  method SplitText(s: string) returns (r: Segmented)
    ensures r == SplitInterpolation(s)
  {
    hide CloseOffset, ParseExpr, StartsClose, Segments, After;
    var segments: seq<Segment> := [];
    var lit := "";
    var i := 0;
    ghost var all := Segments(s, "");
    assert s[0..] == s;
    AfterNothing(all);
    while i < |s|
      invariant i <= |s|
      invariant After(segments, Segments(s[i..], lit), all)
    {
      ghost var here := s[i..];
      AfterText(segments, lit, here, all);
      if s[i] == '\\' && i + 2 < |s| && s[i + 1] == '{' && s[i + 2] == '{' {
        Advance(s, i, 3);
        lit := lit + "{{";
        i := i + 3;
      } else if s[i] == '{' && i + 1 < |s| && s[i + 1] == '{' {
        Advance(s, i, 2);
        AfterOpen(segments, lit, here, all);
        ghost var before, pending := segments, lit;
        if lit != "" {
          segments := segments + [Literal(lit)];
          lit := "";
        }
        assert segments == before + Flush(pending);
        var end := FindClose(s, i + 2);
        if end.None? { return Err(UnterminatedInterpolation); }
        BodySlices(s, i, end.value);
        var e := Parsing.ParseSource(s[i + 2..end.value]);
        if e.Err? { return Err(e.error); }
        AfterExpression(before, pending, here, end.value - (i + 2), e.value, all);
        segments := segments + [Ex(e.value)];
        i := end.value + 2;
      } else {
        Advance(s, i, 1);
        lit := lit + [s[i]];
        i := i + 1;
      }
    }
    ghost var done := segments + Flush(lit);
    assert s[i..] == "";
    AfterEnd(segments, lit, all);
    if lit != "" { segments := segments + [Literal(lit)]; }
    assert segments == done;
    if segments == [] { segments := [Literal("")]; }
    r := Ok(segments);
  }

  method ScanForInterpolation(s: string) returns (found: bool)
    ensures found == HasInterpolation(s)
  {
    var i := 0;
    assert s[0..] == s;
    while i < |s|
      invariant i <= |s| && HasInterpolation(s) == HasInterpolation(s[i..])
    {
      if s[i] == '\\' && i + 2 < |s| && s[i + 1] == '{' && s[i + 2] == '{' {
        assert s[i..][3..] == s[i + 3..];
        i := i + 3;
        continue;
      }
      if s[i] == '{' && i + 1 < |s| && s[i + 1] == '{' { return true; }
      assert s[i..][1..] == s[i + 1..];
      i := i + 1;
    }
    found := false;
  }

  // ------------------------------------------------------- the scanners agree

  /** What a text without interpolation stands for: `\{{` read as `{{`. */
  function PlainText(s: string): string {
    if s == "" then ""
    else if StartsEscape(s) then "{{" + PlainText(s[3..])
    else [s[0]] + PlainText(s[1..])
  }

  lemma {:induction false} NoInterpolation(s: string, lit: string)
    requires !HasInterpolation(s)
    ensures Segments(s, lit) == Ok(Flush(lit + PlainText(s)))
    decreases |s|
  {
    if s == "" {
      assert lit + PlainText(s) == lit;
    } else if StartsEscape(s) {
      NoInterpolation(s[3..], lit + "{{");
      assert lit + "{{" + PlainText(s[3..]) == lit + PlainText(s);
    } else {
      NoInterpolation(s[1..], lit + [s[0]]);
      assert lit + [s[0]] + PlainText(s[1..]) == lit + PlainText(s);
    }
  }

  ghost predicate HasExpression(segs: seq<Segment>) { exists k :: 0 <= k < |segs| && segs[k].Ex? }

  lemma {:induction false} WithInterpolation(s: string, lit: string)
    requires HasInterpolation(s)
    ensures Segments(s, lit).Ok? ==> HasExpression(Segments(s, lit).value)
    decreases |s|
  {
    if StartsEscape(s) {
      WithInterpolation(s[3..], lit + "{{");
    } else if StartsOpen(s) {
      var r := Segments(s, lit);
      if r.Ok? {
        assert r.value[|Flush(lit)|].Ex?;
      }
    } else {
      WithInterpolation(s[1..], lit + [s[0]]);
    }
  }

  /** `has_interpolation` is false exactly when splitting gives one plain literal; when it
      is true splitting fails or meets an expression. */
  lemma HasInterpolationExact(s: string)
    ensures !HasInterpolation(s) ==> SplitInterpolation(s) == Ok([Literal(PlainText(s))])
    ensures HasInterpolation(s) ==>
      SplitInterpolation(s).Err? || HasExpression(SplitInterpolation(s).value)
    ensures HasInterpolation(s) <==> !exists t :: SplitInterpolation(s) == Ok([Literal(t)])
  {
    if HasInterpolation(s) {
      WithInterpolation(s, "");
    } else {
      NoInterpolation(s, "");
      assert "" + PlainText(s) == PlainText(s);
    }
  }

  // -------------------------------------------------------- templates round-trip

  /** Write every `{{` as `\{{`. */
  function Escape(s: string): string {
    if s == "" then ""
    else if StartsOpen(s) then "\\{{" + Escape(s[2..])
    else [s[0]] + Escape(s[1..])
  }

  lemma {:induction false} EscapeHead(s: string)
    ensures s != "" ==> Escape(s) != "" && (Escape(s)[0] == s[0] || Escape(s)[0] == '\\')
    ensures s != "" && !StartsOpen(s) ==> Escape(s) == [s[0]] + Escape(s[1..])
  {
  }

  lemma ScanEscape(s: string, lit: string)
    requires |s| >= 3 && s[0] == '\\' && s[1] == '{' && s[2] == '{'
    ensures Segments(s, lit) == Segments(s[3..], lit + "{{")
  {
    hide CloseOffset, ParseExpr;
  }

  lemma ScanPlain(s: string, lit: string)
    requires s != "" && !StartsEscape(s) && !StartsOpen(s)
    ensures Segments(s, lit) == Segments(s[1..], lit + [s[0]])
  {
    hide CloseOffset, ParseExpr;
  }

  /** Scanning an escaped text reads back the text. */
  lemma {:induction false} EscapedScans(l: string, lit: string)
    ensures Segments(Escape(l), lit) == Ok(Flush(lit + l))
    decreases |l|
  {
    hide Segments;
    var s := Escape(l);
    if l == "" {
      NothingScans(lit);
      assert lit + l == lit;
    } else if StartsOpen(l) {
      EscapedScans(l[2..], lit + "{{");
      assert s[3..] == Escape(l[2..]);
      assert lit + "{{" + l[2..] == lit + l;
      ScanEscape(s, lit);
    } else {
      EscapeHead(l[1..]);
      assert s == [l[0]] + Escape(l[1..]);
      if |l| > 1 { NotAnEscape(l); }
      EscapedScans(l[1..], lit + [l[0]]);
      assert s[1..] == Escape(l[1..]);
      assert lit + [l[0]] + l[1..] == lit + l;
      ScanPlain(s, lit);
    }
  }

  lemma NothingScans(lit: string)
    ensures Segments("", lit) == Ok(Flush(lit))
  {
  }

  /** Escaping leaves no `\{{` that was not put there for a `{{`. */
  lemma NotAnEscape(l: string)
    requires |l| > 1 && !StartsOpen(l)
    ensures !StartsEscape(Escape(l)) && !StartsOpen(Escape(l))
  {
    EscapeHead(l[1..]);
    if l[0] == '\\' && l[1] == '{' && |l| > 2 {
      EscapeHead(l[2..]);
      assert l[1..][1..] == l[2..];
    }
  }

  /** Escaping then splitting gives one literal, the original text. */
  lemma EscapeRoundTrip(t: string)
    ensures SplitInterpolation(Escape(t)) == Ok([Literal(t)])
  {
    EscapedScans(t, "");
    assert "" + t == t;
  }

  // Literals in front of an expression.

  /** Whether a literal can stand in front of an expression: it ends neither in a backslash, which
      would escape the braces that follow, nor in a brace on its own, which would open earlier. */
  predicate Joinable(l: string) {
    l != "" ==>
      && l[|l| - 1] != '\\'
      && (l[|l| - 1] == '{' ==> |l| > 1 && l[|l| - 2] == '{')
  }

  predicate ThreeBraces(l: string) {
    |l| > 2 && l[0] == '{' && l[1] == '{' && l[2] == '{' && (|l| == 3 || l[3] != '{')
  }

  /** Write a literal: every two braces escaped, the odd one of a longer run in front. */
  function Spell(l: string): string {
    if l == "" then ""
    else if ThreeBraces(l) then "{\\{{" + Spell(l[3..])
    else if StartsOpen(l) then "\\{{" + Spell(l[2..])
    else [l[0]] + Spell(l[1..])
  }

  lemma {:induction false} SpellHead(s: string)
    requires s != ""
    ensures Spell(s) != ""
    ensures !StartsOpen(s) ==> Spell(s) == [s[0]] + Spell(s[1..])
    ensures StartsOpen(s) ==> Spell(s)[0] == '\\' || (|Spell(s)| > 1 && Spell(s)[0] == '{' && Spell(s)[1] == '\\')
  {
  }

  /** What is written for one character is read as that character. */
  lemma PlainSpelled(l: string, tail: string)
    requires l != "" && !StartsOpen(l) && (Joinable(l) || tail == "")
    ensures !StartsEscape(Spell(l) + tail) && !StartsOpen(Spell(l) + tail)
  {
    SpellHead(l);
    if |l| > 1 {
      SpellHead(l[1..]);
      if |l| > 2 {
        SpellHead(l[2..]);
        assert l[1..][1..] == l[2..];
      } else {
        assert l[1..][1..] == "" && Spell("") == "";
      }
    } else {
      assert l[1..] == "" && Spell("") == "";
    }
  }

  lemma ThreeSpelled(l: string, tail: string, lit: string)
    requires ThreeBraces(l)
    ensures Segments(Spell(l) + tail, lit) == Segments(Spell(l[3..]) + tail, lit + "{" + "{{")
  {
    hide Segments;
    var s := Spell(l) + tail;
    assert s[1..][3..] == Spell(l[3..]) + tail;
    ScanPlain(s, lit);
    ScanEscape(s[1..], lit + "{");
  }

  lemma PairSpelled(l: string, tail: string, lit: string)
    requires StartsOpen(l) && !ThreeBraces(l)
    ensures Segments(Spell(l) + tail, lit) == Segments(Spell(l[2..]) + tail, lit + "{{")
  {
    hide Segments;
    var s := Spell(l) + tail;
    assert s[3..] == Spell(l[2..]) + tail;
    ScanEscape(s, lit);
  }

  lemma CharSpelled(l: string, tail: string, lit: string)
    requires l != "" && !StartsOpen(l) && (Joinable(l) || tail == "")
    ensures Segments(Spell(l) + tail, lit) == Segments(Spell(l[1..]) + tail, lit + [l[0]])
  {
    hide Segments, Joinable;
    var s := Spell(l) + tail;
    PlainSpelled(l, tail);
    SpellHead(l);
    hide Spell, StartsEscape, StartsOpen;
    BehindFirst(l[0], Spell(l[1..]), tail);
    ScanPlain(s, lit);
  }

  lemma BehindFirst(c: char, rest: string, tail: string)
    ensures [c] + rest + tail != "" && ([c] + rest + tail)[0] == c && ([c] + rest + tail)[1..] == rest + tail
  {
  }

  /** What is left of a joinable literal is joinable. */
  lemma JoinableRest(l: string)
    requires Joinable(l)
    ensures ThreeBraces(l) ==> Joinable(l[3..])
    ensures StartsOpen(l) && !ThreeBraces(l) ==> Joinable(l[2..])
    ensures l != "" && !StartsOpen(l) ==> Joinable(l[1..])
  {
  }

  /** The literal read so far, whatever was taken from the front of the rest. */
  lemma LiteralParts(lit: string, l: string)
    ensures lit + "" == lit
    ensures ThreeBraces(l) ==> lit + "{" + "{{" + l[3..] == lit + l
    ensures StartsOpen(l) ==> lit + "{{" + l[2..] == lit + l
    ensures l != "" ==> lit + [l[0]] + l[1..] == lit + l
  {
    if ThreeBraces(l) { assert l == "{" + "{{" + l[3..]; }
    if StartsOpen(l) { assert l == "{{" + l[2..]; }
  }

  /** Scanning a written literal reads back the literal, whatever follows if it can stand there. */
  lemma {:induction false} SpelledScans(l: string, tail: string, lit: string)
    requires Joinable(l) || tail == ""
    ensures Segments(Spell(l) + tail, lit) == Segments(tail, lit + l)
    decreases |l|
  {
    hide Segments, Joinable;
    LiteralParts(lit, l);
    if tail != "" { JoinableRest(l); }
    if l == "" {
      assert Spell(l) + tail == tail;
    } else if ThreeBraces(l) {
      hide Spell, StartsOpen;
      ThreeSpelled(l, tail, lit);
      SpelledScans(l[3..], tail, lit + "{" + "{{");
    } else if StartsOpen(l) {
      hide Spell;
      PairSpelled(l, tail, lit);
      SpelledScans(l[2..], tail, lit + "{{");
    } else {
      hide Spell;
      CharSpelled(l, tail, lit);
      SpelledScans(l[1..], tail, lit + [l[0]]);
    }
  }

  function WriteSegment(g: Segment): string {
    match g
    case Literal(t) => Spell(t)
    case Ex(e) => "{{ " + Print(e) + "}}"
  }

  function Write(segs: seq<Segment>): string {
    if segs == [] then "" else WriteSegment(segs[0]) + Write(segs[1..])
  }

  /** No empty and no neighbouring literals: the only shape splitting produces. */
  predicate Normal(segs: seq<Segment>) {
    segs != [] ==>
      && (segs[0].Literal? ==> segs[0].text != "" && (|segs| > 1 ==> segs[1].Ex?))
      && (segs[0].Ex? ==> Printable(segs[0].expr))
      && Normal(segs[1..])
  }

  /** Every literal in front of an expression can stand there. */
  predicate Separated(segs: seq<Segment>) {
    segs != [] ==>
      && (segs[0].Literal? && |segs| > 1 ==> Joinable(segs[0].text))
      && Separated(segs[1..])
  }

  // Closing braces: what the lexer reads as inside a string, the scanner skips too.

  lemma CloseEscaped(c: char, tail: string)
    ensures CloseOffset(EscapeChar(c) + tail, Some('"')) ==
            Shift(|EscapeChar(c)|, CloseOffset(tail, Some('"')))
  {
    assert ([c] + tail)[1..] == tail && (['\\', c] + tail)[2..] == tail;
  }

  lemma CloseQuote(s: string, quote: Option<char>)
    requires quote == None || quote == Some('"')
    ensures CloseOffset("\"" + s, quote) ==
            Shift(1, CloseOffset(s, if quote == None then Some('"') else None))
  {
    assert ("\"" + s)[1..] == s;
  }

  lemma {:induction false} CloseString(s: string, tail: string)
    ensures CloseOffset(EscapeString(s) + ("\"" + tail), Some('"')) ==
            Shift(|EscapeString(s)| + 1, CloseOffset(tail, None))
  {
    hide CloseOffset, EscapeChar, EscapeString;
    if s == "" {
      EscapeStringNil("\"" + tail);
      EscapeStringNil("");
      CloseQuote(tail, Some('"'));
    } else {
      CloseString(s[1..], tail);
      CloseEscaped(s[0], EscapeString(s[1..]) + ("\"" + tail));
      EscapeStringCons(s, "\"" + tail);
      EscapeStringCons(s, "");
    }
  }

  /** Text without quotes or closing braces is passed over. */
  lemma {:induction false} ClosePlain(w: string, tail: string)
    requires forall i :: 0 <= i < |w| ==> w[i] != '"' && w[i] != '\'' && w[i] != '}'
    ensures CloseOffset(w + tail, None) == Shift(|w|, CloseOffset(tail, None))
  {
    hide CloseOffset;
    if w == "" {
      assert w + tail == tail;
    } else {
      ClosePlain(w[1..], tail);
      assert (w + tail)[1..] == w[1..] + tail;
      ClosePlainHead(w + tail);
    }
  }

  lemma ClosePlainHead(s: string)
    requires s != "" && s[0] != '"' && s[0] != '\'' && s[0] != '}'
    ensures CloseOffset(s, None) == Shift(1, CloseOffset(s[1..], None))
  {
  }

  lemma CloseStringToken(s: string, tail: string)
    ensures CloseOffset(Show(TStr(s)) + (" " + tail), None) == Shift(|Show(TStr(s))| + 1, CloseOffset(tail, None))
  {
    hide CloseOffset, EscapeString;
    CloseString(s, " " + tail);
    ClosePlain(" ", tail);
    CloseQuote(EscapeString(s) + ("\"" + (" " + tail)), None);
    assert Show(TStr(s)) + (" " + tail) == "\"" + (EscapeString(s) + ("\"" + (" " + tail)));
  }

  lemma CloseToken(t: Tok, tail: string)
    requires Lexable(t)
    ensures CloseOffset(Show(t) + (" " + tail), None) == Shift(|Show(t)| + 1, CloseOffset(tail, None))
  {
    hide CloseOffset, Show, Lexable;
    if t.TStr? {
      CloseStringToken(t.text, tail);
    } else {
      ShowPlain(t);
      ClosePlain(Show(t) + " ", tail);
      assert Show(t) + (" " + tail) == Show(t) + " " + tail;
    }
  }

  lemma ShowPlain(t: Tok)
    requires Lexable(t) && !t.TStr?
    ensures forall i :: 0 <= i < |Show(t)| ==> Show(t)[i] != '"' && Show(t)[i] != '\'' && Show(t)[i] != '}'
  {
    hide NumberToken, ValidFloat, Decimal, DigitsValue;
    if t.TInt? || t.TFloat? { NumberTokenInverts(t); }
  }

  lemma {:induction false} CloseTokens(ts: seq<Tok>, tail: string)
    requires AllLexable(ts)
    ensures CloseOffset(Render(ts) + ("}}" + tail), None) == Some(|Render(ts)|)
  {
    if ts == [] {
      assert Render(ts) + ("}}" + tail) == "}}" + tail;
    } else {
      hide CloseOffset, Show, Lexable, Render;
      CloseTokens(ts[1..], tail);
      CloseToken(ts[0], Render(ts[1..]) + ("}}" + tail));
      RenderCons(ts, "}}" + tail);
    }
  }

  lemma ScanExpression(s: string, lit: string, end: nat, e: Expr)
    requires StartsOpen(s) && CloseOffset(s[2..], None) == Some(end) && ParseExpr(s[2..][..end]) == Ok(e)
    ensures Segments(s, lit) ==
            match Segments(s[2..][end + 2..], "")
            case Ok(rest) => Ok(Flush(lit) + [Ex(e)] + rest)
            case Err(x) => Err(x)
  {
    hide CloseOffset, ParseExpr;
  }

  lemma WrittenParts(p: string, tail: string)
    ensures var inner := " " + p;
      var s := "{{ " + p + "}}" + tail;
      && s[2..] == inner + ("}}" + tail)
      && s[2..][..|inner|] == inner
      && s[2..][|inner| + 2..] == tail
      && StartsOpen(s)
  {
    var s := "{{ " + p + "}}" + tail;
    assert s[2..] == " " + p + ("}}" + tail);
  }

  lemma ExpressionSegment(e: Expr, tail: string, lit: string)
    requires Printable(e)
    ensures Segments(WriteSegment(Ex(e)) + tail, lit) ==
            match Segments(tail, "")
            case Ok(rest) => Ok(Flush(lit) + [Ex(e)] + rest)
            case Err(x) => Err(x)
  {
    hide CloseOffset, ParseExpr, Print, Segments, Printable, StartsOpen;
    WrittenParts(Print(e), tail);
    CloseAfterPrint(e, tail);
    ParsePrint(e);
    ScanExpression(WriteSegment(Ex(e)) + tail, lit, 1 + |Print(e)|, e);
  }

  lemma CloseAfterPrint(e: Expr, tail: string)
    requires Printable(e)
    ensures CloseOffset(" " + Print(e) + ("}}" + tail), None) == Some(1 + |Print(e)|)
  {
    hide CloseOffset, PrintTokens, Render, Printable;
    PrintedLexable(e, 0);
    CloseTokens(PrintTokens(e, 0), tail);
    ClosePlain(" ", Print(e) + ("}}" + tail));
    assert " " + Print(e) + ("}}" + tail) == " " + (Print(e) + ("}}" + tail));
  }

  function Prepend(head: seq<Segment>, r: Segmented): Segmented {
    if r.Ok? then Ok(head + r.value) else r
  }

  lemma ReadExpression(e: Expr, tail: string)
    requires Printable(e)
    ensures Segments(WriteSegment(Ex(e)) + tail, "") == Prepend([Ex(e)], Segments(tail, ""))
  {
    hide Segments;
    ExpressionSegment(e, tail, "");
    assert Flush("") + [Ex(e)] == [Ex(e)];
  }

  lemma ReadLiteral(l: string, e: Expr, tail: string)
    requires l != "" && Printable(e) && Joinable(l)
    ensures Segments(Spell(l) + (WriteSegment(Ex(e)) + tail), "") == Prepend([Literal(l), Ex(e)], Segments(tail, ""))
  {
    hide Segments, Spell, Print, Printable, Joinable, WriteSegment;
    SpelledScans(l, WriteSegment(Ex(e)) + tail, "");
    ExpressionSegment(e, tail, l);
    assert "" + l == l;
    assert Flush(l) + [Ex(e)] == [Literal(l), Ex(e)];
  }

  lemma ReadLiteralLast(l: string)
    requires l != ""
    ensures Segments(Spell(l), "") == Ok([Literal(l)])
  {
    SpelledScans(l, "", "");
    assert Spell(l) + "" == Spell(l) && "" + l == l;
  }

  lemma WriteCons(segs: seq<Segment>)
    ensures segs != [] ==> Write(segs) == WriteSegment(segs[0]) + Write(segs[1..])
    ensures |segs| == 1 ==> Write(segs) == WriteSegment(segs[0])
    ensures |segs| > 1 ==> Write(segs) == WriteSegment(segs[0]) + (WriteSegment(segs[1]) + Write(segs[2..]))
  {
    if |segs| > 1 { assert segs[1..][1..] == segs[2..]; }
  }

  lemma WriteLiteral(g: Segment)
    requires g.Literal?
    ensures WriteSegment(g) == Spell(g.text)
  {
  }

  lemma PairParts(segs: seq<Segment>)
    requires Normal(segs) && Separated(segs) && |segs| > 1 && segs[0].Literal?
    ensures segs[0].text != "" && Joinable(segs[0].text) && segs[1].Ex? && Printable(segs[1].expr)
    ensures Normal(segs[2..]) && Separated(segs[2..])
  {
    assert segs[1..][1..] == segs[2..] && Normal(segs[1..]) && Separated(segs[1..]);
  }

  /** Reading a written template, segment by segment. */
  lemma {:induction false} WrittenReads(segs: seq<Segment>)
    requires Normal(segs) && Separated(segs)
    ensures Segments(Write(segs), "") == Ok(segs)
    decreases |segs|
  {
    hide Segments, Printable, Joinable, WriteSegment, Spell;
    if segs == [] {
      NothingScans("");
    } else if segs[0].Ex? {
      WriteCons(segs);
      WrittenReads(segs[1..]);
      ReadExpression(segs[0].expr, Write(segs[1..]));
      assert [segs[0]] + segs[1..] == segs;
    } else if |segs| == 1 {
      WriteCons(segs);
      WriteLiteral(segs[0]);
      ReadLiteralLast(segs[0].text);
      assert segs == [Literal(segs[0].text)];
    } else {
      PairParts(segs);
      WriteCons(segs);
      WriteLiteral(segs[0]);
      WrittenReads(segs[2..]);
      ReadLiteral(segs[0].text, segs[1].expr, Write(segs[2..]));
      assert [segs[0], segs[1]] + segs[2..] == segs;
    }
  }

  // What splitting can produce.

  lemma ShapeCons(lit: string, e: Expr, rest: seq<Segment>)
    requires Joinable(lit) && Printable(e) && Normal(rest) && Separated(rest)
    ensures Normal(Flush(lit) + [Ex(e)] + rest) && Separated(Flush(lit) + [Ex(e)] + rest)
  {
    hide Printable, Joinable;
    var tail := [Ex(e)] + rest;
    assert tail[1..] == rest;
    if lit == "" {
      assert Flush(lit) + [Ex(e)] + rest == tail;
    } else {
      var all := Flush(lit) + [Ex(e)] + rest;
      assert all == [Literal(lit)] + tail && all[1..] == tail;
    }
  }

  /** Whatever is split comes apart into non-empty literals with an expression between any two,
      and each literal in front of an expression can stand there. */
  lemma {:induction false} SplitShape(s: string, lit: string)
    requires StartsOpen(s) ==> Joinable(lit)
    ensures Segments(s, lit).Ok? ==> Normal(Segments(s, lit).value) && Separated(Segments(s, lit).value)
    decreases |s|
  {
    hide CloseOffset, ParseExpr, Printable;
    if s == "" {
    } else if StartsEscape(s) {
      SplitShape(s[3..], lit + "{{");
    } else if StartsOpen(s) {
      var end := CloseOffset(s[2..], None);
      if end.Some? {
        var e := ParseExpr(s[2..][..end.value]);
        if e.Ok? {
          ParsedIsPrintable(s[2..][..end.value]);
          SplitShape(s[2..][end.value + 2..], "");
          var rest := Segments(s[2..][end.value + 2..], "");
          if rest.Ok? { ShapeCons(lit, e.value, rest.value); }
        }
      }
    } else {
      SplitShape(s[1..], lit + [s[0]]);
    }
  }

  /** Exactly what splitting can produce: the empty literal alone, or non-empty literals with an
      expression between any two, none in front of an expression ending in a backslash or in a run
      of exactly one brace. */
  lemma SplitImage(segs: seq<Segment>)
    ensures (exists s :: SplitInterpolation(s) == Ok(segs)) <==>
      segs == [Literal("")] || (segs != [] && Normal(segs) && Separated(segs))
  {
    hide Normal, Separated, Segments;
    if s :| SplitInterpolation(s) == Ok(segs) {
      SplitShape(s, "");
    }
    if segs == [Literal("")] {
      NothingScans("");
      assert SplitInterpolation("") == Ok(segs);
    } else if segs != [] && Normal(segs) && Separated(segs) {
      WrittenReads(segs);
      assert SplitInterpolation(Write(segs)) == Ok(segs);
    }
  }

  /** Writing segments and splitting gives them back whenever any text splits into them. */
  lemma TemplateRoundTrip(segs: seq<Segment>)
    requires segs != [] && Normal(segs)
    ensures SplitInterpolation(Write(segs)) == Ok(segs) <==> Separated(segs)
    ensures SplitInterpolation(Write(segs)) == Ok(segs) <==> exists s :: SplitInterpolation(s) == Ok(segs)
  {
    hide Segments, Write, Separated, SplitInterpolation;
    SplitImage(segs);
    assert segs != [Literal("")] by { assert segs == [Literal("")] ==> !Normal(segs); }
    if Separated(segs) {
      WrittenSplits(segs);
    }
  }

  lemma WrittenSplits(segs: seq<Segment>)
    requires segs != [] && Normal(segs) && Separated(segs)
    ensures SplitInterpolation(Write(segs)) == Ok(segs)
  {
    hide Segments, Write;
    WrittenReads(segs);
  }
}
