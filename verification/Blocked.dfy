/** `certainly_blocked`: whether a resource can never run because something it depends on,
    directly or through others, is skipped for certain. */
module Blocked {
  import opened Wrappers
  import opened Model
  import opened Ordering
  import opened Results
  import opened Engine

  /** Some resource one or more dependency edges away from `d` has a false condition. */
  ghost predicate ReachesFalse(deps: seq<set<nat>>, d: nat, cond: nat -> Cond) {
    exists c :: Chain(deps, d, c) && cond(c[|c| - 1]) == Holds(false)
  }

  ghost predicate Reaches(deps: seq<set<nat>>, d: nat, x: nat) {
    exists c :: Chain(deps, d, c) && c[|c| - 1] == x
  }

  lemma ReachesStep(deps: seq<set<nat>>, d: nat, x: nat, y: nat)
    requires Graph(deps) && d < |deps| && (x == d || Reaches(deps, d, x)) && x < |deps| && y in deps[x]
    ensures Reaches(deps, d, y)
  {
    if x == d {
      assert Chain(deps, d, [d, y]);
    } else {
      var c :| Chain(deps, d, c) && c[|c| - 1] == x;
      assert Chain(deps, d, c + [y]);
    }
  }

  /** What is expanded or still on the stack: closed under dependencies, the stack aside. */
  ghost predicate Explored(deps: seq<set<nat>>, d: nat, seen: set<nat>, stack: seq<nat>) {
    && (forall x :: x in seen ==> x < |deps| && Reaches(deps, d, x))
    && (forall x :: x in stack ==> x == d || x in seen)
    && (forall x :: (x == d || x in seen) && x !in stack && x < |deps| ==> deps[x] <= seen)
  }

  lemma {:induction false} ClosedHoldsAll(deps: seq<set<nat>>, d: nat, seen: set<nat>, c: seq<nat>, k: nat)
    requires Explored(deps, d, seen, []) && Chain(deps, d, c) && 1 <= k < |c|
    ensures c[k] in seen
  {
    assert c[(k - 1) + 1] in deps[c[k - 1]];
    if k > 1 {
      ClosedHoldsAll(deps, d, seen, c, k - 1);
    }
  }

  function AllIds(rs: seq<Resource>): set<string> { set i, x | 0 <= i < |rs| && x in rs[i].dependsOn :: x }

  /** The existing dependencies named by the ids seen so far. */
  function Indexes(rs: seq<Resource>, seen: set<string>): set<nat> {
    set x | x in seen && IndexOf(rs, x).Some? :: IndexOf(rs, x).value
  }

  /** Push what `cur` depends on and is new; found when one of these is skipped for certain. */
  method Expand(rs: seq<Resource>, cur: nat, cond: nat -> Cond, seen: set<string>, stack: seq<nat>)
    returns (found: bool, seen': set<string>, stack': seq<nat>)
    requires cur < |rs| && UniqueIds(rs) && seen <= AllIds(rs)
    ensures found ==> exists x :: x in Dependencies(rs)[cur] && cond(x) == Holds(false)
    ensures !found ==>
      && seen <= seen' <= AllIds(rs) && (seen' == seen ==> stack' == stack)
      && Indexes(rs, seen') == Indexes(rs, seen) + Dependencies(rs)[cur]
      && (forall x :: x in stack' <==> x in stack || (x in Indexes(rs, seen') && x !in Indexes(rs, seen)))
      && (forall x :: x in Indexes(rs, seen') && x !in Indexes(rs, seen) ==> cond(x) != Holds(false))
  {
    var ids := rs[cur].dependsOn;
    seen', stack', found := seen, stack, false;
    for k := 0 to |ids|
      invariant seen <= seen' <= AllIds(rs) && (seen' == seen ==> stack' == stack)
      invariant forall m :: 0 <= m < k ==> ids[m] in seen'
      invariant forall x :: x in seen' ==> x in seen || x in ids
      invariant forall x :: x in stack' <==> x in stack || (x in Indexes(rs, seen') && x !in Indexes(rs, seen))
      invariant forall x :: x in Indexes(rs, seen') && x !in Indexes(rs, seen) ==> cond(x) != Holds(false)
    {
      var dep := ids[k];
      assert dep in ids && dep in AllIds(rs);
      if dep in seen' { continue; }
      ghost var before := seen';
      seen' := seen' + {dep};
      var r := IndexOf(rs, dep);
      if r.None? {
        assert Indexes(rs, seen') == Indexes(rs, before);
        continue;
      }
      assert Indexes(rs, seen') == Indexes(rs, before) + {r.value};
      if cond(r.value) == Holds(false) {
        assert r.value in Dependencies(rs)[cur];
        return true, seen', stack';
      }
      NewIndex(rs, seen, dep);
      stack' := stack' + [r.value];
    }
    assert forall x :: x in ids ==> x in seen';
  }

  lemma NewIndex(rs: seq<Resource>, seen: set<string>, dep: string)
    requires UniqueIds(rs) && dep !in seen && IndexOf(rs, dep).Some?
    ensures IndexOf(rs, dep).value !in Indexes(rs, seen)
  {
  }

  /** Exact: true when, and only when, a resource reached from `d` has a false condition. */
  method CertainlyBlocked(rs: seq<Resource>, d: nat, cond: nat -> Cond) returns (blocked: bool)
    requires d < |rs| && UniqueIds(rs)
    ensures blocked <==> ReachesFalse(Dependencies(rs), d, cond)
  {
    hide Dependencies, Indexes, AllIds, Reaches, Chain;
    ghost var deps := Dependencies(rs);
    var seen: set<string> := {};
    var stack: seq<nat> := [d];
    NothingSeen(rs, d);
    while stack != []
      invariant seen <= AllIds(rs) && (forall x :: x in stack ==> x < |rs|)
      invariant Explored(deps, d, Indexes(rs, seen), stack)
      invariant forall x :: x in Indexes(rs, seen) ==> cond(x) != Holds(false)
      decreases AllIds(rs) - seen, |stack|
    {
      var cur := stack[|stack| - 1];
      assert cur in stack;
      var rest: seq<nat> := stack[..|stack| - 1];
      var found, seen', stack' := Expand(rs, cur, cond, seen, rest);
      if found {
        FoundFalse(deps, d, cur, cond);
        return true;
      }
      ExpandedExplored(deps, d, cur, Indexes(rs, seen), stack, Indexes(rs, seen'), stack');
      if seen' != seen { assert AllIds(rs) - seen' < AllIds(rs) - seen; }
      seen, stack := seen', stack';
    }
    NoneFalse(deps, d, Indexes(rs, seen), cond);
    blocked := false;
  }

  lemma NothingSeen(rs: seq<Resource>, d: nat)
    requires d < |rs|
    ensures Indexes(rs, {}) == {} && Explored(Dependencies(rs), d, {}, [d])
  {
  }

  lemma FoundFalse(deps: seq<set<nat>>, d: nat, cur: nat, cond: nat -> Cond)
    requires Graph(deps) && d < |deps| && cur < |deps| && (cur == d || Reaches(deps, d, cur))
    requires exists x :: x in deps[cur] && cond(x) == Holds(false)
    ensures ReachesFalse(deps, d, cond)
  {
    var x :| x in deps[cur] && cond(x) == Holds(false);
    ReachesStep(deps, d, cur, x);
    var c :| Chain(deps, d, c) && c[|c| - 1] == x;
  }

  lemma ExpandedExplored(
      deps: seq<set<nat>>, d: nat, cur: nat, seen: set<nat>, stack: seq<nat>, seen': set<nat>, stack': seq<nat>)
    requires Graph(deps) && d < |deps| && cur < |deps|
    requires Explored(deps, d, seen, stack) && stack != [] && stack[|stack| - 1] == cur
    requires seen' == seen + deps[cur]
    requires forall x :: x in stack' <==> x in stack[..|stack| - 1] || (x in seen' && x !in seen)
    ensures Explored(deps, d, seen', stack') && forall x :: x in stack' ==> x < |deps|
  {
    assert cur in stack && stack == stack[..|stack| - 1] + [cur];
    forall x | x in seen'
      ensures x < |deps| && Reaches(deps, d, x)
    {
      if x !in seen { ReachesStep(deps, d, cur, x); }
    }
  }

  lemma NoneFalse(deps: seq<set<nat>>, d: nat, seen: set<nat>, cond: nat -> Cond)
    requires Explored(deps, d, seen, []) && forall x :: x in seen ==> cond(x) != Holds(false)
    ensures !ReachesFalse(deps, d, cond)
  {
    forall c | Chain(deps, d, c)
      ensures cond(c[|c| - 1]) != Holds(false)
    {
      ClosedHoldsAll(deps, d, seen, c, |c| - 1);
    }
  }

  // ---------------------------------------------------------------- with the run

  /** In this run, what is false for certain never came out true. */
  ghost predicate FalseStays(rs: seq<Resource>, mode: Mode, w: World, order: seq<nat>, cond: nat -> Cond)
    requires Indices(rs, order) && History(rs, mode, w, order).Some?
  {
    forall m :: 0 <= m < |order| && cond(order[m]) == Holds(false) ==>
      w.when(order[m], ResultsOf(History(rs, mode, w, order).value[..m])) != Holds(true)
  }

  /** Conditions that do not depend on what ran before. */
  ghost predicate Static(w: World, cond: nat -> Cond) { forall i, out :: w.when(i, out) == cond(i) }

  /** What is certainly blocked is never dispatched, whatever else happens. */
  lemma BlockedNeverDispatched(rs: seq<Resource>, mode: Mode, w: World, order: seq<nat>, k: nat, cond: nat -> Cond)
    requires Indices(rs, order) && History(rs, mode, w, order).Some? && k < |order|
    requires UniqueIds(rs) && FalseStays(rs, mode, w, order, cond) && ReachesFalse(Dependencies(rs), order[k], cond)
    ensures !History(rs, mode, w, order).value[k].dispatched
  {
    hide History, Dependencies;
    if History(rs, mode, w, order).value[k].dispatched {
      var c :| Chain(Dependencies(rs), order[k], c) && cond(c[|c| - 1]) == Holds(false);
      var m := TransitiveGate(rs, mode, w, order, k, c);
      assert false;
    }
  }

  /** Every dispatch succeeds and satisfies dependents. */
  ghost predicate AllSucceed(w: World) {
    forall i, out :: w.dispatch(i, out).Done? && w.dispatch(i, out).result.SatisfiesDependency()
      && !w.dispatch(i, out).result.Stops()
  }

  /** And nothing else blocks: with decided conditions and no failures, a resource is dispatched
      exactly when its condition is true and it is not certainly blocked. */
  lemma {:induction false} BlockedExact(rs: seq<Resource>, mode: Mode, w: World, order: seq<nat>, k: nat, cond: nat -> Cond)
    requires Topological(Dependencies(rs), order) && DependenciesExist(rs) && UniqueIds(rs)
    requires Indices(rs, order) && History(rs, mode, w, order).Some? && k < |order|
    requires Static(w, cond) && AllSucceed(w) && forall i :: cond(i).Holds?
    ensures History(rs, mode, w, order).value[k].dispatched <==>
      cond(order[k]) == Holds(true) && !ReachesFalse(Dependencies(rs), order[k], cond)
    ensures History(rs, mode, w, order).value[k].dispatched ==>
      History(rs, mode, w, order).value[k].result.SatisfiesDependency()
    ensures !History(rs, mode, w, order).value[k].result.Stops()
    decreases k
  {
    hide History, Dependencies;
    var h := History(rs, mode, w, order).value;
    var before := ResultsOf(h[..k]);
    HistoryAt(rs, mode, w, order, k);
    forall m | 0 <= m < k
      ensures !h[m].result.Stops()
    {
      BlockedExact(rs, mode, w, order, m, cond);
    }
    assert !HasStopped(before);
    if cond(order[k]) == Holds(true) {
      if ReachesFalse(Dependencies(rs), order[k], cond) {
        BlockedNeverDispatched(rs, mode, w, order, k, cond);
      } else {
        forall d | d in rs[order[k]].dependsOn
          ensures LastResult(before, d).Some? && LastResult(before, d).value.SatisfiesDependency()
        {
          DependencySatisfied(rs, mode, w, order, k, cond, d);
        }
        assert DependencyGate(before, rs[order[k]].dependsOn) == Open;
      }
    }
  }

  lemma {:induction false} DependencySatisfied(
      rs: seq<Resource>, mode: Mode, w: World, order: seq<nat>, k: nat, cond: nat -> Cond, d: string)
    requires Topological(Dependencies(rs), order) && DependenciesExist(rs) && UniqueIds(rs)
    requires Indices(rs, order) && History(rs, mode, w, order).Some? && k < |order|
    requires Static(w, cond) && AllSucceed(w) && forall i :: cond(i).Holds?
    requires d in rs[order[k]].dependsOn && !ReachesFalse(Dependencies(rs), order[k], cond)
    ensures var before := ResultsOf(History(rs, mode, w, order).value[..k]);
            LastResult(before, d).Some? && LastResult(before, d).value.SatisfiesDependency()
    decreases k, 0
  {
    hide History;
    var h := History(rs, mode, w, order).value;
    var before, deps := ResultsOf(h[..k]), Dependencies(rs);
    AlwaysProcessed(rs, mode, w, order, k, d);
    var r := LastResult(before, d).value;
    var m :| 0 <= m < k && before[m] == r;
    OneResultEach(rs, mode, w, order, m);
    UniqueIndex(rs, order[m]);
    assert order[m] in deps[order[k]];
    NotReaching(deps, order[k], order[m], cond);
    BlockedExact(rs, mode, w, order, m, cond);
  }

  lemma NotReaching(deps: seq<set<nat>>, i: nat, j: nat, cond: nat -> Cond)
    requires Graph(deps) && i < |deps| && j in deps[i] && !ReachesFalse(deps, i, cond)
    ensures cond(j) != Holds(false) && !ReachesFalse(deps, j, cond)
  {
    assert Chain(deps, i, [i, j]);
    forall c | Chain(deps, j, c)
      ensures cond(c[|c| - 1]) != Holds(false)
    {
      var longer := [i] + c;
      forall x | 0 <= x < |longer| - 1
        ensures longer[x + 1] in deps[longer[x]]
      {
        if x > 0 {
          var y := x - 1;
          assert c[y + 1] in deps[c[y]];
        }
      }
      assert Chain(deps, i, longer);
      assert longer[|longer| - 1] == c[|c| - 1];
    }
  }
}
