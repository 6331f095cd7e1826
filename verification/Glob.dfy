/** Host-name patterns: the loop with one backtrack point against trying every split. */
module Glob {
  import opened Wrappers

  /** `*` matches any run of characters, `?` one, anything else itself. */
  ghost predicate Matches(p: string, s: string)
    decreases |p|
  {
    if p == "" then s == ""
    else if p[0] == '*' then exists k :: 0 <= k <= |s| && Matches(p[1..], s[k..])
    else s != "" && (p[0] == '?' || p[0] == s[0]) && Matches(p[1..], s[1..])
  }

  predicate One(p: char, c: char) { p != '*' && (p == '?' || p == c) }

  /** `p[from..pi]` has no star and matches `s[at..at + (pi - from)]` character by character. */
  predicate Segment(p: string, from: nat, pi: nat, s: string, at: nat)
    requires from <= pi <= |p| && at + (pi - from) <= |s|
  {
    forall j :: from <= j < pi ==> One(p[j], s[at + (j - from)])
  }

  /** Some place at or after `mark` where the pattern behind a star matches. */
  ghost predicate MatchesFrom(p: string, s: string, mark: nat) {
    exists k :: mark <= k <= |s| && Matches(p, s[k..])
  }

  lemma MatchChar(p: string, pi: nat, s: string, si: nat)
    requires pi < |p| && p[pi] != '*' && si <= |s|
    ensures Matches(p[pi..], s[si..]) <==> si < |s| && One(p[pi], s[si]) && Matches(p[pi + 1..], s[si + 1..])
  {
    assert p[pi..][1..] == p[pi + 1..];
    if si < |s| { assert s[si..][1..] == s[si + 1..]; }
  }

  lemma MatchStar(p: string, pi: nat, s: string, si: nat)
    requires pi < |p| && p[pi] == '*' && si <= |s|
    ensures Matches(p[pi..], s[si..]) <==> MatchesFrom(p[pi + 1..], s, si)
  {
    assert p[pi..][1..] == p[pi + 1..];
    forall k | 0 <= k <= |s| - si
      ensures s[si..][k..] == s[si + k..]
    {
    }
    if MatchesFrom(p[pi + 1..], s, si) {
      var k :| si <= k <= |s| && Matches(p[pi + 1..], s[k..]);
      assert s[si..][k - si..] == s[k..];
    }
  }

  /** A matched segment passes the question on to what is behind it. */
  lemma {:induction false} SegmentMatches(p: string, from: nat, pi: nat, s: string, at: nat)
    requires from <= pi <= |p| && at + (pi - from) <= |s| && Segment(p, from, pi, s, at)
    ensures Matches(p[from..], s[at..]) <==> Matches(p[pi..], s[at + (pi - from)..])
    decreases pi - from
  {
    if from < pi {
      MatchChar(p, from, s, at);
      SegmentMatches(p, from + 1, pi, s, at + 1);
    }
  }

  /** A match uses up one character for each of a star-free segment. */
  lemma {:induction false} SegmentNeeds(p: string, from: nat, pi: nat, s: string, k: nat)
    requires from <= pi <= |p| && k <= |s| && (forall j :: from <= j < pi ==> p[j] != '*')
    requires Matches(p[from..], s[k..])
    ensures k + (pi - from) <= |s| && Matches(p[pi..], s[k + (pi - from)..])
    decreases pi - from
  {
    if from < pi {
      MatchChar(p, from, s, k);
      SegmentNeeds(p, from + 1, pi, s, k + 1);
    }
  }

  /** What the loop knows: with no star the rest has to match the rest; with one, the pattern
      behind the last star has to match somewhere from `mark` on, and does so far at `mark`. */
  ghost predicate Inv(p: string, s: string, pi: nat, si: nat, star: Option<nat>, mark: nat) {
    && pi <= |p| && si <= |s|
    && match star
       case None => mark == 0 && (Matches(p, s) <==> Matches(p[pi..], s[si..]))
       case Some(st) =>
         && st < pi && p[st] == '*' && mark + (pi - (st + 1)) == si
         && Segment(p, st + 1, pi, s, mark)
         && (Matches(p, s) <==> MatchesFrom(p[st + 1..], s, mark))
  }

  lemma CharStep(p: string, s: string, pi: nat, si: nat, star: Option<nat>, mark: nat)
    requires Inv(p, s, pi, si, star, mark) && pi < |p| && si < |s| && One(p[pi], s[si])
    ensures Inv(p, s, pi + 1, si + 1, star, mark)
  {
    hide Matches, MatchesFrom;
    MatchChar(p, pi, s, si);
  }

  /** Reaching a further star: matching the segment where it first fits loses nothing. */
  lemma StarStep(p: string, s: string, pi: nat, si: nat, star: Option<nat>, mark: nat)
    requires Inv(p, s, pi, si, star, mark) && pi < |p| && p[pi] == '*'
    ensures Inv(p, s, pi + 1, si, Some(pi), si)
  {
    hide Matches;
    MatchStar(p, pi, s, si);
    if star.Some? {
      var from := star.value + 1;
      SegmentMatches(p, from, pi, s, mark);
      if MatchesFrom(p[from..], s, mark) {
        var k :| mark <= k <= |s| && Matches(p[from..], s[k..]);
        SegmentNeeds(p, from, pi, s, k);
        MatchStar(p, pi, s, k + (pi - from));
        var m :| k + (pi - from) <= m <= |s| && Matches(p[pi + 1..], s[m..]);
        assert MatchesFrom(p[pi + 1..], s, si);
      }
    }
  }

  /** A dead end: the place marked does not work out. */
  lemma DeadEnd(p: string, s: string, pi: nat, si: nat)
    requires pi <= |p| && si < |s| && (pi < |p| ==> p[pi] != '*' && !One(p[pi], s[si]))
    ensures !Matches(p[pi..], s[si..])
  {
    if pi < |p| { MatchChar(p, pi, s, si); }
  }

  lemma BackStep(p: string, s: string, pi: nat, si: nat, st: nat, mark: nat)
    requires Inv(p, s, pi, si, Some(st), mark) && si < |s| && !Matches(p[pi..], s[si..])
    ensures mark < |s| && Inv(p, s, st + 1, mark + 1, Some(st), mark + 1)
  {
    hide Matches;
    SegmentMatches(p, st + 1, pi, s, mark);
    if MatchesFrom(p[st + 1..], s, mark) {
      var k :| mark <= k <= |s| && Matches(p[st + 1..], s[k..]);
      assert k != mark;
      assert MatchesFrom(p[st + 1..], s, mark + 1);
    }
  }

  /** At the end of the name only the place marked can still work out: later ones have too few
      characters left for the segment. */
  lemma EndStep(p: string, s: string, pi: nat, star: Option<nat>, mark: nat)
    requires Inv(p, s, pi, |s|, star, mark)
    ensures Matches(p, s) <==> Matches(p[pi..], "")
  {
    hide Matches;
    assert s[|s|..] == "";
    if star.Some? {
      var from := star.value + 1;
      SegmentMatches(p, from, pi, s, mark);
      assert s[mark + (pi - from)..] == "";
      if MatchesFrom(p[from..], s, mark) {
        var k :| mark <= k <= |s| && Matches(p[from..], s[k..]);
        SegmentNeeds(p, from, pi, s, k);
        assert k == mark;
      }
    }
  }

  lemma OnlyStarsMatchNothing(p: string, pi: nat)
    requires pi <= |p|
    ensures pi == |p| ==> Matches(p[pi..], "")
    ensures pi < |p| && p[pi] != '*' ==> !Matches(p[pi..], "")
    ensures pi < |p| && p[pi] == '*' ==> (Matches(p[pi..], "") <==> Matches(p[pi + 1..], ""))
  {
    if pi < |p| {
      assert p[pi..][1..] == p[pi + 1..];
      assert ""[0..] == "";
    }
  }

  /** One backtrack point is enough. */
  method GlobMatch(p: string, s: string) returns (r: bool)
    ensures r <==> Matches(p, s)
  {
    hide Matches, Inv;
    var pi: nat, si: nat := 0, 0;
    var star: Option<nat> := None;
    var mark: nat := 0;
    Start(p, s);
    while si < |s|
      invariant pi <= |p| && si <= |s| && mark <= |s| && Inv(p, s, pi, si, star, mark)
      invariant star.Some? ==> star.value < pi && mark <= si
      decreases |p| - (if star.None? then 0 else star.value + 1), |s| - mark, |s| - si
    {
      if pi < |p| && p[pi] != '*' && (p[pi] == '?' || p[pi] == s[si]) {
        CharStep(p, s, pi, si, star, mark);
        pi, si := pi + 1, si + 1;
      } else if pi < |p| && p[pi] == '*' {
        StarStep(p, s, pi, si, star, mark);
        star, mark, pi := Some(pi), si, pi + 1;
      } else {
        DeadEnd(p, s, pi, si);
        if star.None? {
          NoStar(p, s, pi, si, mark);
          return false;
        }
        BackStep(p, s, pi, si, star.value, mark);
        pi, mark := star.value + 1, mark + 1;
        si := mark;
      }
    }
    EndStep(p, s, pi, star, mark);
    while pi < |p| && p[pi] == '*'
      invariant pi <= |p| && (Matches(p, s) <==> Matches(p[pi..], ""))
    {
      OnlyStarsMatchNothing(p, pi);
      pi := pi + 1;
    }
    OnlyStarsMatchNothing(p, pi);
    r := pi == |p|;
  }

  lemma Start(p: string, s: string)
    ensures Inv(p, s, 0, 0, None, 0)
  {
    assert p[0..] == p && s[0..] == s;
  }

  lemma NoStar(p: string, s: string, pi: nat, si: nat, mark: nat)
    requires Inv(p, s, pi, si, None, mark) && !Matches(p[pi..], s[si..])
    ensures !Matches(p, s)
  {
  }

  // What a pattern means, piece by piece.

  /** `s` comes apart at `k` into what `p` and what `q` matches. */
  ghost predicate SplitsFor(p: string, q: string, s: string, k: nat) {
    k <= |s| && Matches(p, s[..k]) && Matches(q, s[k..])
  }

  /** A pattern matches what its parts match one behind the other. */
  lemma {:induction false} MatchesConcat(p: string, q: string, s: string)
    ensures Matches(p + q, s) <==> exists k: nat :: SplitsFor(p, q, s, k)
    decreases |p|
  {
    hide Matches;
    if p == "" {
      assert p + q == q && s[0..] == s && s[..0] == "";
      EmptyMatches("");
      assert Matches(q, s) ==> SplitsFor(p, q, s, 0);
      forall k: nat | SplitsFor(p, q, s, k)
        ensures k == 0
      {
        EmptyMatches(s[..k]);
      }
    } else {
      assert (p + q)[1..] == p[1..] + q && (p + q)[0] == p[0];
      if p[0] == '*' { StarConcat(p, q, s); } else { CharConcat(p, q, s); }
    }
  }

  lemma EmptyMatches(s: string)
    ensures Matches("", s) <==> s == ""
  {
  }

  lemma {:induction false} CharConcat(p: string, q: string, s: string)
    requires p != "" && p[0] != '*' && (p + q)[1..] == p[1..] + q && (p + q)[0] == p[0]
    ensures Matches(p + q, s) <==> exists k: nat :: SplitsFor(p, q, s, k)
    decreases |p|, 0
  {
    CharHead(p + q, s);
    CharHead(p, "");
    hide Matches;
    if s != "" { MatchesConcat(p[1..], q, s[1..]); }
    forall k: nat | 0 < k <= |s|
      ensures SplitsFor(p, q, s, k) <==> One(p[0], s[0]) && SplitsFor(p[1..], q, s[1..], k - 1)
    {
      CharHead(p, s[..k]);
      assert s[..k][1..] == s[1..][..k - 1] && s[1..][k - 1..] == s[k..];
    }
    assert s[..0] == "";
    if s != "" {
      if k: nat :| SplitsFor(p[1..], q, s[1..], k) { assert SplitsFor(p, q, s, k + 1) <==> One(p[0], s[0]); }
    }
  }

  lemma CharHead(p: string, s: string)
    requires p != "" && p[0] != '*'
    ensures Matches(p, s) <==> s != "" && One(p[0], s[0]) && Matches(p[1..], s[1..])
  {
  }

  lemma StarHead(p: string, s: string)
    requires p != "" && p[0] == '*'
    ensures Matches(p, s) <==> exists k :: 0 <= k <= |s| && Matches(p[1..], s[k..])
  {
  }

  lemma {:induction false} StarConcat(p: string, q: string, s: string)
    requires p != "" && p[0] == '*' && (p + q)[1..] == p[1..] + q && (p + q)[0] == p[0]
    ensures Matches(p + q, s) <==> exists k: nat :: SplitsFor(p, q, s, k)
    decreases |p|, 0
  {
    StarHead(p + q, s);
    hide Matches;
    if Matches(p + q, s) {
      var i :| 0 <= i <= |s| && Matches(p[1..] + q, s[i..]);
      MatchesConcat(p[1..], q, s[i..]);
      var k: nat :| SplitsFor(p[1..], q, s[i..], k);
      StarHead(p, s[..i + k]);
      assert s[..i + k][i..] == s[i..][..k] && s[i..][k..] == s[i + k..];
      assert SplitsFor(p, q, s, i + k);
    }
    if k: nat :| SplitsFor(p, q, s, k) {
      StarHead(p, s[..k]);
      var i :| 0 <= i <= k && Matches(p[1..], s[..k][i..]);
      assert s[..k][i..] == s[i..][..k - i] && s[i..][k - i..] == s[k..];
      assert SplitsFor(p[1..], q, s[i..], k - i);
      MatchesConcat(p[1..], q, s[i..]);
    }
  }

  /** The pieces: `*` matches everything, `?` any one character, another character itself; no pattern, nothing. */
  lemma PieceMeans(c: char, s: string)
    ensures Matches([c], s) <==> if c == '*' then true else |s| == 1 && (c == '?' || s[0] == c)
    ensures Matches("", s) <==> s == ""
  {
    assert [c][1..] == "";
    if c == '*' { assert s[|s|..] == ""; }
  }
}
