/** Detecting Jinja-style tags outside interpolations. */
module TemplateTags {
  import opened Wrappers
  import opened Interpolation

  datatype Kind = Statement | Comment

  datatype TemplateTag = TemplateTag(kind: Kind, line: nat, column: nat)

  function Mark(kind: Kind): char { if kind == Statement then '%' else '#' }

  /** The positions outside interpolations and escapes, in order; `s` is the text from `base` on.
      An unterminated `{{` is ordinary text. */
  function Outside(s: string, base: nat): seq<nat>
    decreases |s|
  {
    if s == "" then []
    else if StartsEscape(s) then Outside(s[3..], base + 3)
    else
      var close := if StartsOpen(s) then CloseOffset(s[2..], None) else None;
      if close.Some? then Outside(s[close.value + 4..], base + close.value + 4)
      else [base] + Outside(s[1..], base + 1)
  }

  predicate OpenerAt(s: string, kind: Kind, i: nat) {
    i + 1 < |s| && s[i] == '{' && s[i + 1] == Mark(kind) && (kind == Statement || i == 0 || s[i - 1] != '$')
  }

  predicate CloserAt(s: string, kind: Kind, i: nat) {
    i + 1 < |s| && s[i] == Mark(kind) && s[i + 1] == '}'
  }

  ghost predicate Opener(s: string, kind: Kind, i: nat) { i in Outside(s, 0) && OpenerAt(s, kind, i) }

  ghost predicate Closer(s: string, kind: Kind, i: nat) { i in Outside(s, 0) && CloserAt(s, kind, i) }

  /** An opener whose nearest closer comes before any further opener of its kind. */
  ghost predicate IsTag(s: string, kind: Kind, open: nat) {
    && Opener(s, kind, open)
    && exists close: nat :: IsClosedBy(s, kind, open, close)
  }

  ghost predicate IsClosedBy(s: string, kind: Kind, open: nat, close: nat) {
    && open + 2 <= close && Closer(s, kind, close)
    && (forall c: nat :: open + 2 <= c && Closer(s, kind, c) ==> close <= c)
    && (forall o: nat :: open < o && Opener(s, kind, o) ==> close < o)
  }

  ghost predicate FirstTag(s: string, kind: Kind, open: nat) {
    && IsTag(s, kind, open)
    && forall k, o: nat :: IsTag(s, k, o) ==> open <= o
  }

  function Newlines(s: string): nat {
    if s == "" then 0 else (if s[0] == '\n' then 1 else 0) + Newlines(s[1..])
  }

  /** `at` is on the 1-based line and column. */
  predicate Located(s: string, at: nat, line: nat, column: nat) {
    && at <= |s| && 1 <= column <= at + 1
    && line == 1 + Newlines(s[..at])
    && '\n' !in s[at + 1 - column..at]
    && (column == at + 1 || s[at - column] == '\n')
  }

  // --------------------------------------------------------------- position lists

  ghost predicate Sorted(s: seq<nat>) { forall i, j :: 0 <= i < j < |s| ==> s[i] < s[j] }

  lemma {:induction false} OutsideAbove(s: string, base: nat)
    ensures forall x :: x in Outside(s, base) ==> base <= x < base + |s|
    decreases |s|
  {
    hide CloseOffset;
    if s == "" {
    } else if StartsEscape(s) {
      OutsideAbove(s[3..], base + 3);
    } else {
      var close := if StartsOpen(s) then CloseOffset(s[2..], None) else None;
      if close.Some? {
        OutsideAbove(s[close.value + 4..], base + close.value + 4);
      } else {
        OutsideAbove(s[1..], base + 1);
      }
    }
  }

  /** Opener and closer positions of one kind, in order. */
  datatype Positions = Positions(openers: seq<nat>, closers: seq<nat>)

  function Visit(p: Positions, s: string, kind: Kind, i: nat): Positions {
    Positions(if OpenerAt(s, kind, i) then p.openers + [i] else p.openers,
              if CloserAt(s, kind, i) then p.closers + [i] else p.closers)
  }

  /** `p` holds exactly the openers and closers among the positions `seen`. */
  ghost predicate Collected(p: Positions, s: string, kind: Kind, seen: seq<nat>) {
    && Sorted(p.openers) && Sorted(p.closers)
    && (forall x: nat :: x in p.openers <==> x in seen && OpenerAt(s, kind, x))
    && (forall x: nat :: x in p.closers <==> x in seen && CloserAt(s, kind, x))
  }

  lemma SortedMore(list: seq<nat>, i: nat)
    requires Sorted(list) && forall x :: x in list ==> x < i
    ensures Sorted(list + [i])
  {
    assert forall k :: 0 <= k < |list| ==> list[k] in list;
  }

  lemma VisitCollects(p: Positions, s: string, kind: Kind, seen: seq<nat>, i: nat)
    requires Collected(p, s, kind, seen) && forall x :: x in seen ==> x < i
    ensures Collected(Visit(p, s, kind, i), s, kind, seen + [i])
  {
    hide OpenerAt, CloserAt;
    SortedMore(p.openers, i);
    SortedMore(p.closers, i);
  }

  /** Index of the first element not below `bound` in a sorted list. */
  method PartitionPoint(list: seq<nat>, bound: nat) returns (at: nat)
    requires Sorted(list)
    ensures at <= |list|
    ensures forall k :: 0 <= k < at ==> list[k] < bound
    ensures forall k :: at <= k < |list| ==> bound <= list[k]
  {
    var lo, hi := 0, |list|;
    while lo < hi
      invariant lo <= hi <= |list|
      invariant forall k :: 0 <= k < lo ==> list[k] < bound
      invariant forall k :: hi <= k < |list| ==> bound <= list[k]
    {
      var mid := (lo + hi) / 2;
      if list[mid] < bound {
        lo := mid + 1;
      } else {
        hi := mid;
      }
    }
    at := lo;
  }

  ghost predicate AllOpeners(s: string, kind: Kind, list: seq<nat>) {
    Sorted(list) && forall x: nat :: x in list <==> Opener(s, kind, x)
  }

  ghost predicate AllClosers(s: string, kind: Kind, list: seq<nat>) {
    Sorted(list) && forall x: nat :: x in list <==> Closer(s, kind, x)
  }

  /** With all openers and closers in order, an opener is a tag exactly when the first closer
      at least two further comes before the next opener in the list. */
  lemma TagByIndex(s: string, kind: Kind, openers: seq<nat>, closers: seq<nat>, n: nat, at: nat)
    requires AllOpeners(s, kind, openers) && AllClosers(s, kind, closers)
    requires n < |openers| && at <= |closers|
    requires forall k :: 0 <= k < at ==> closers[k] < openers[n] + 2
    requires forall k :: at <= k < |closers| ==> openers[n] + 2 <= closers[k]
    ensures IsTag(s, kind, openers[n]) <==>
      at < |closers| && (n + 1 < |openers| ==> closers[at] < openers[n + 1])
  {
    hide Opener, Closer;
    var open := openers[n];
    if at < |closers| && (n + 1 < |openers| ==> closers[at] < openers[n + 1]) {
      forall c: nat | open + 2 <= c && Closer(s, kind, c)
        ensures closers[at] <= c
      {
        var k :| 0 <= k < |closers| && closers[k] == c;
      }
      forall o: nat | open < o && Opener(s, kind, o)
        ensures closers[at] < o
      {
        var m :| 0 <= m < |openers| && openers[m] == o;
        assert n < m;
      }
      assert closers[at] in closers;
      assert IsClosedBy(s, kind, open, closers[at]);
    }
    if IsTag(s, kind, open) {
      var close: nat :| IsClosedBy(s, kind, open, close);
      assert close in closers;
      var k :| 0 <= k < |closers| && closers[k] == close;
      assert at <= k;
      assert closers[at] in closers;
      if n + 1 < |openers| { assert openers[n + 1] in openers; }
    }
  }

  /** The first tag of one kind: an index into its openers. */
  method FirstOfKind(s: string, kind: Kind, openers: seq<nat>, closers: seq<nat>) returns (r: Option<nat>)
    requires AllOpeners(s, kind, openers) && AllClosers(s, kind, closers)
    ensures r.Some? ==> IsTag(s, kind, r.value) && forall o: nat :: IsTag(s, kind, o) ==> r.value <= o
    ensures r.None? ==> forall o: nat :: !IsTag(s, kind, o)
  {
    hide Opener, Closer, IsClosedBy;
    for n := 0 to |openers|
      invariant forall m :: 0 <= m < n ==> !IsTag(s, kind, openers[m])
    {
      var at := PartitionPoint(closers, openers[n] + 2);
      TagByIndex(s, kind, openers, closers, n, at);
      if at < |closers| && (n + 1 >= |openers| || closers[at] < openers[n + 1]) {
        return Some(openers[n]);
      }
    }
    r := None;
  }

  method LineAndColumn(s: string, at: nat) returns (line: nat, column: nat)
    requires at <= |s|
    ensures Located(s, at, line, column)
  {
    var start := at;
    while start > 0 && s[start - 1] != '\n'
      invariant 0 <= start <= at && '\n' !in s[start..at]
    {
      start := start - 1;
    }
    line := 1;
    for i := 0 to at
      invariant line + Newlines(s[i..at]) == 1 + Newlines(s[..at])
    {
      assert s[i..at][1..] == s[i + 1..at];
      if s[i] == '\n' { line := line + 1; }
    }
    column := 1 + at - start;
  }

  lemma NothingCollected(s: string, kind: Kind)
    ensures Collected(Positions([], []), s, kind, [])
  {
  }

  lemma AllCollected(p: Positions, s: string, kind: Kind)
    requires Collected(p, s, kind, Outside(s, 0))
    ensures AllOpeners(s, kind, p.openers) && AllClosers(s, kind, p.closers)
  {
  }

  lemma PastEscape(s: string, i: nat)
    requires i < |s| && StartsEscape(s[i..])
    ensures Outside(s[i..], i) == Outside(s[i + 3..], i + 3)
  {
    assert s[i..][3..] == s[i + 3..];
  }

  lemma PastInterpolation(s: string, i: nat, end: nat)
    requires i < |s| && StartsOpen(s[i..]) && CloseOffset(s[i + 2..], None) == Some(end)
    ensures i + end + 4 <= |s| && Outside(s[i..], i) == Outside(s[i + end + 4..], i + end + 4)
  {
    hide StartsClose;
    assert s[i..][2..] == s[i + 2..];
    assert s[i..][end + 4..] == s[i + end + 4..];
  }

  lemma AtPosition(s: string, i: nat)
    requires i < |s| && !StartsEscape(s[i..])
    requires StartsOpen(s[i..]) ==> CloseOffset(s[i + 2..], None) == None
    ensures Outside(s[i..], i) == [i] + Outside(s[i + 1..], i + 1)
  {
    assert s[i..][1..] == s[i + 1..];
    assert StartsOpen(s[i..]) ==> s[i..][2..] == s[i + 2..];
  }

  /** Note an opener or a closer at `i`; `${#` opens no comment. */
  method Note(p: Positions, s: string, kind: Kind, c: char, i: nat, next: Option<char>) returns (r: Positions)
    requires i < |s| && c == Mark(kind) && next == if i + 1 < |s| then Some(s[i + 1]) else None
    ensures r == Visit(p, s, kind, i)
  {
    r := p;
    if s[i] == '{' && next == Some(c) && (kind == Statement || i == 0 || s[i - 1] != '$') {
      r := r.(openers := r.openers + [i]);
    }
    if s[i] == c && next == Some('}') {
      r := r.(closers := r.closers + [i]);
    }
  }

  method ScanPositions(s: string) returns (statements: Positions, comments: Positions)
    ensures AllOpeners(s, Statement, statements.openers) && AllClosers(s, Statement, statements.closers)
    ensures AllOpeners(s, Comment, comments.openers) && AllClosers(s, Comment, comments.closers)
  {
    hide CloseOffset, Collected, OpenerAt, CloserAt, Outside;
    statements, comments := Positions([], []), Positions([], []);
    ghost var seen: seq<nat> := [];
    var i := 0;
    NothingCollected(s, Statement);
    NothingCollected(s, Comment);
    assert s[0..] == s && [] + Outside(s, 0) == Outside(s, 0);
    while i < |s|
      invariant i <= |s|
      invariant Outside(s, 0) == seen + Outside(s[i..], i)
      invariant forall x :: x in seen ==> x < i
      invariant Collected(statements, s, Statement, seen) && Collected(comments, s, Comment, seen)
    {
      var next := if i + 1 < |s| then Some(s[i + 1]) else None;
      if s[i] == '\\' && next == Some('{') && i + 2 < |s| && s[i + 2] == '{' {
        PastEscape(s, i);
        i := i + 3;
        continue;
      }
      if s[i] == '{' && next == Some('{') {
        var end := FindClose(s, i + 2);
        if end.Some? {
          PastInterpolation(s, i, end.value - (i + 2));
          i := end.value + 2;
          continue;
        }
      }
      AtPosition(s, i);
      assert seen + ([i] + Outside(s[i + 1..], i + 1)) == seen + [i] + Outside(s[i + 1..], i + 1);
      VisitCollects(statements, s, Statement, seen, i);
      VisitCollects(comments, s, Comment, seen, i);
      statements := Note(statements, s, Statement, '%', i, next);
      comments := Note(comments, s, Comment, '#', i, next);
      seen := seen + [i];
      i := i + 1;
    }
    assert Outside(s, 0) == seen by { NothingOutside(i); assert s[i..] == ""; }
    AllCollected(statements, s, Statement);
    AllCollected(comments, s, Comment);
  }

  lemma NothingOutside(i: nat)
    ensures Outside("", i) == []
  {
  }

  /** The leftmost tag of either kind and where it is, or None when there is none. */
  method UnsupportedTemplateTag(s: string) returns (r: Option<TemplateTag>)
    ensures r.None? ==> forall k, o: nat :: !IsTag(s, k, o)
    ensures r.Some? ==>
      exists at: nat :: FirstTag(s, r.value.kind, at) && Located(s, at, r.value.line, r.value.column)
  {
    var statements, comments := ScanPositions(s);
    var st := FirstOfKind(s, Statement, statements.openers, statements.closers);
    var co := FirstOfKind(s, Comment, comments.openers, comments.closers);
    if st.None? && co.None? {
      assert forall k, o: nat :: IsTag(s, k, o) ==> k == Statement || k == Comment;
      return None;
    }
    var kind := if co.None? || (st.Some? && st.value <= co.value) then Statement else Comment;
    var at := if kind == Statement then st.value else co.value;
    assert FirstTag(s, kind, at) by {
      assert forall k, o: nat :: IsTag(s, k, o) ==> k == Statement || k == Comment;
    }
    OutsideAbove(s, 0);
    var line, column := LineAndColumn(s, at);
    r := Some(TemplateTag(kind, line, column));
  }

  // What a tag looks like.

  lemma {:induction false} AllOutside(s: string, base: nat)
    requires forall i :: 0 <= i && i + 1 < |s| ==> !(s[i] == '{' && s[i + 1] == '{')
    ensures forall x: nat :: base <= x < base + |s| ==> x in Outside(s, base)
  {
    hide CloseOffset;
    if s != "" {
      assert !StartsOpen(s) && !StartsEscape(s) by { assert |s| > 2 ==> !(s[1] == '{' && s[2] == '{'); }
      AllOutside(s[1..], base + 1);
    }
  }

  /** `{% ... %}` is a tag wherever it is, and `{# ... #}` is one unless a `$` is in front of it. */
  lemma TagWhere(a: string, b: string, kind: Kind)
    requires forall c :: c in a + b ==> c !in {'{', '}', '%', '#'}
    ensures var mark := if kind == Statement then "%" else "#";
      IsTag(a + ("{" + mark + b + mark + "}"), kind, |a|) <==> kind == Statement || a == "" || a[|a| - 1] != '$'
  {
    var mark := if kind == Statement then '%' else '#';
    var s := a + ("{" + [mark] + b + [mark] + "}");
    assert forall i :: 0 <= i < |a| ==> s[i] == a[i] && a[i] in a + b;
    assert forall i :: 0 <= i < |b| ==> s[|a| + 2 + i] == b[i] && b[i] in a + b;
    forall i | 0 <= i < |s|
      ensures s[i] == '{' <==> i == |a|
      ensures s[i] == '}' <==> i == |a| + 3 + |b|
    {
      if |a| + 2 <= i < |a| + 2 + |b| { assert s[i] == b[i - |a| - 2]; }
    }
    OneTag(s, kind, mark, |a|, |a| + 2 + |b|);
  }

  /** A text with one opening and one closing brace. */
  lemma OneTag(s: string, kind: Kind, mark: char, open: nat, close: nat)
    requires mark == (if kind == Statement then '%' else '#') && open + 2 <= close && |s| == close + 2
    requires s[open + 1] == mark && s[close] == mark
    requires forall i :: 0 <= i < |s| ==> (s[i] == '{' <==> i == open) && (s[i] == '}' <==> i == close + 1)
    ensures IsTag(s, kind, open) <==> kind == Statement || open == 0 || s[open - 1] != '$'
  {
    AllOutside(s, 0);
    hide Outside;
    assert forall o: nat :: Opener(s, kind, o) ==> o == open;
    assert forall c: nat :: Closer(s, kind, c) <==> c == close;
    if Opener(s, kind, open) { assert IsClosedBy(s, kind, open, close); }
  }
}
