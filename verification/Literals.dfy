/** String literals: which texts are one, and what each stands for. */
module Literals {
  import opened Wrappers
  import opened Syntax
  import Text

  /** A character for itself, or one behind a backslash. */
  datatype Piece = Plain(c: char) | Escaped(c: char)

  /** What the known escapes stand for; any other keeps its backslash. */
  const ESCAPES: map<char, string> :=
    map['n' := "\n", 't' := "\t", 'r' := "\r", '\\' := "\\", '"' := "\"", '\'' := "'"]

  function Means(p: Piece): string {
    match p
    case Plain(c) => [c]
    case Escaped(c) => if c in ESCAPES then ESCAPES[c] else ['\\', c]
  }

  function Writes(p: Piece): string {
    match p
    case Plain(c) => [c]
    case Escaped(c) => ['\\', c]
  }

  function Meant(ps: seq<Piece>): string { if ps == [] then "" else Means(ps[0]) + Meant(ps[1..]) }

  function Written(ps: seq<Piece>): string { if ps == [] then "" else Writes(ps[0]) + Written(ps[1..]) }

  /** No character for itself ends the literal or starts an escape. */
  predicate Writable(ps: seq<Piece>, quote: char) {
    forall p :: p in ps && p.Plain? ==> p.c != quote && p.c != '\\'
  }

  /** `s` starts with pieces and the closing quote, and stands for their meaning. */
  ghost predicate ReadsAs(s: string, quote: char, ps: seq<Piece>, text: string, rest: string) {
    Writable(ps, quote) && s == Written(ps) + ([quote] + rest) && text == Meant(ps)
  }

  /** A literal is read exactly as the pieces it is written with, up to the first quote that is none of them. */
  lemma LiteralExact(s: string, quote: char, text: string, rest: string)
    requires quote == '"' || quote == '\''
    ensures LexString(s, quote) == Ok((text, rest)) <==> exists ps :: ReadsAs(s, quote, ps, text, rest)
  {
    if LexString(s, quote) == Ok((text, rest)) {
      var ps := LiteralPieces(s, quote);
      assert ReadsAs(s, quote, ps, text, rest);
    }
    if ps :| ReadsAs(s, quote, ps, text, rest) { WrittenReads(ps, quote, rest); }
  }

  lemma {:induction false} LiteralPieces(s: string, quote: char) returns (ps: seq<Piece>)
    requires quote != '\\' && LexString(s, quote).Ok?
    ensures ReadsAs(s, quote, ps, LexString(s, quote).value.0, LexString(s, quote).value.1)
  {
    if s[0] == quote {
      ps := [];
      assert s == [quote] + s[1..] && Written(ps) == "";
    } else {
      var p := if s[0] == '\\' then Escaped(s[1]) else Plain(s[0]);
      var back := s[|Writes(p)|..];
      assert s == Writes(p) + back;
      PieceReads(p, back, quote);
      var tail := LiteralPieces(back, quote);
      ps := [p] + tail;
      assert ps[1..] == tail;
      hide LexString, Means, Writes;
      Regrouped(Writes(p), Written(tail), [quote] + LexString(back, quote).value.1);
    }
  }

  lemma Regrouped(a: string, b: string, c: string)
    ensures a + (b + c) == a + b + c
  {
  }

  /** A piece in front of a literal's rest adds what it means; in front of no literal it makes none. */
  lemma PieceReads(p: Piece, tail: string, quote: char)
    requires quote != '\\' && (p.Plain? ==> p.c != quote && p.c != '\\')
    ensures var r := LexString(tail, quote);
      LexString(Writes(p) + tail, quote) == if r.Err? then r else Ok((Means(p) + r.value.0, r.value.1))
  {
    match p {
      case Plain(c) => assert ([c] + tail)[1..] == tail;
      case Escaped(c) =>
        assert (['\\', c] + tail)[2..] == tail;
        EscapeMeans(c);
    }
  }

  lemma EscapeMeans(c: char)
    ensures Unescape(c) == Means(Escaped(c))
  {
  }

  lemma {:induction false} WrittenReads(ps: seq<Piece>, quote: char, rest: string)
    requires quote != '\\' && Writable(ps, quote)
    ensures LexString(Written(ps) + ([quote] + rest), quote) == Ok((Meant(ps), rest))
  {
    if ps == [] {
      assert Written(ps) + ([quote] + rest) == [quote] + rest && ([quote] + rest)[1..] == rest;
    } else {
      WrittenReads(ps[1..], quote, rest);
      assert ps[0] in ps;
      PieceReads(ps[0], Written(ps[1..]) + ([quote] + rest), quote);
      hide LexString, Means, Writes;
      Regrouped(Writes(ps[0]), Written(ps[1..]), [quote] + rest);
    }
  }

  /** Spaces, tabs and line ends between tokens mean nothing. */
  lemma {:induction false} SpaceSkipped(space: string, s: string)
    requires forall c :: c in space ==> c in {' ', '\t', '\n', '\r'}
    ensures Tokens(space + s) == Tokens(s)
  {
    if space == "" {
      assert space + s == s;
    } else {
      assert forall c :: c in space[1..] ==> c in space;
      SpaceSkipped(space[1..], s);
      assert (space + s)[1..] == space[1..] + s;
      assert space[0] in space;
      hide WordToken;
      assert SkipWs(space + s) == SkipWs(space[1..] + s);
      assert Token(space + s) == Token(space[1..] + s);
    }
  }

  predicate Digits(s: string) { Text.AllDigits(s) }

  predicate IsFraction(s: string) { s == "" || (s[0] == '.' && Digits(s[1..])) }

  predicate IsExponent(s: string) {
    s != "" ==>
      && s[0] in {'e', 'E'}
      && exists k :: 1 <= k <= 2 && k < |s| && (k == 2 ==> s[1] in {'+', '-'}) && Digits(s[k..])
  }

  /** A float is digits, a fraction or none, and an exponent or none; the fraction may have no digits. */
  lemma FloatExact(s: string)
    ensures ValidFloat(s) <==> exists n, m :: FloatParts(s, n, m)
  {
    hide FloatParts, ValidFloat;
    if ValidFloat(s) { FloatSplits(s); }
    if n, m :| FloatParts(s, n, m) { FloatReads(s, n, m); }
  }

  lemma FloatSplits(s: string)
    requires ValidFloat(s)
    ensures exists n, m :: FloatParts(s, n, m)
  {
    var n := Run(s, Text.IsDigit);
    var back := s[n..];
    hide Run;
    var k := FractionSplits(back);
    ExponentExact(back[k..]);
    hide IsExponent, ValidExponent, IsFraction, AfterFraction;
    assert back[..k] == s[n..n + k] && back[k..] == s[n + k..];
    assert FloatParts(s, n, n + k);
  }

  lemma FractionSplits(s: string) returns (k: nat)
    ensures k <= |s| && AfterFraction(s) == s[k..] && IsFraction(s[..k])
  {
    if s != "" && s[0] == '.' {
      k := 1 + Run(s[1..], Text.IsDigit);
      assert s[..k][1..] == s[1..][..k - 1];
    } else {
      k := 0;
    }
  }

  lemma FloatReads(s: string, n: nat, m: nat)
    requires FloatParts(s, n, m)
    ensures ValidFloat(s)
  {
    ExponentExact(s[m..]);
    var back := s[n..];
    assert n < m ==> s[n] == s[n..m][0];
    assert m < |s| ==> s[m] == s[m..][0];
    RunIs(s, n);
    if n < m {
      assert back[1..][..m - n - 1] == s[n..m][1..];
      assert m < |s| ==> back[1..][m - n - 1] == s[m];
      RunIs(back[1..], m - n - 1);
    }
    hide Run, IsExponent, ValidExponent;
    assert AfterFraction(back) == s[m..];
  }

  /** The digits end at `n`, the fraction at `m`. */
  predicate FloatParts(s: string, n: nat, m: nat) {
    1 <= n <= m <= |s| && Digits(s[..n]) && IsFraction(s[n..m]) && IsExponent(s[m..])
  }

  lemma ExponentExact(s: string)
    ensures ValidExponent(s) <==> IsExponent(s)
  {
  }

  /** A run of digits ends where something else follows. */
  lemma {:induction false} RunIs(s: string, n: nat)
    requires n <= |s| && Digits(s[..n]) && (n < |s| ==> !Text.IsDigit(s[n]))
    ensures Run(s, Text.IsDigit) == n
  {
    if n > 0 {
      assert s[1..][..n - 1] == s[..n][1..];
      assert s[0] == s[..n][0];
      RunIs(s[1..], n - 1);
    }
  }
}
