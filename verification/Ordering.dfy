/** The recipe's resources, and their execution order: dependencies first, ties
    broken by declaration order. */
module Model {
  import opened Wrappers

  datatype Resource = Resource(
    id: string,
    kind: string,
    path: Option<string>,
    dependsOn: seq<string>,
    notify: seq<string>,
    register: Option<string>,
    sensitive: bool)

  /** The index an id names: the last one declared with it. */
  function IndexOf(rs: seq<Resource>, id: string): (r: Option<nat>)
    ensures r.Some? ==> r.value < |rs| && rs[r.value].id == id && forall j :: r.value < j < |rs| ==> rs[j].id != id
    ensures r.None? <==> forall i :: 0 <= i < |rs| ==> rs[i].id != id
  {
    if rs == [] then None
    else if rs[|rs| - 1].id == id then Some(|rs| - 1)
    else IndexOf(rs[..|rs| - 1], id)
  }

  ghost predicate UniqueIds(rs: seq<Resource>) {
    forall i, j :: 0 <= i < |rs| && 0 <= j < |rs| && rs[i].id == rs[j].id ==> i == j
  }

  ghost predicate DependenciesExist(rs: seq<Resource>) {
    forall i, d :: 0 <= i < |rs| && d in rs[i].dependsOn ==> IndexOf(rs, d).Some?
  }

  function DepsOf(rs: seq<Resource>, ids: seq<string>): (deps: set<nat>)
    ensures forall j :: j in deps ==> j < |rs|
  {
    set d | d in ids && IndexOf(rs, d).Some? :: IndexOf(rs, d).value
  }

  /** The indices each resource depends on directly. */
  function Dependencies(rs: seq<Resource>): (deps: seq<set<nat>>)
    ensures |deps| == |rs|
    ensures forall i :: 0 <= i < |deps| ==> deps[i] == DepsOf(rs, rs[i].dependsOn)
    ensures Graph(deps)
  {
    seq(|rs|, i requires 0 <= i < |rs| => DepsOf(rs, rs[i].dependsOn))
  }

  predicate Graph(deps: seq<set<nat>>) {
    forall i, j :: 0 <= i < |deps| && j in deps[i] ==> j < |deps|
  }
}

module Ordering {
  import opened Wrappers
  import opened Model

  datatype OrderError = UnknownDependency | Cycle

  function Elements(s: seq<nat>): set<nat> { set x | x in s }

  ghost predicate Distinct(s: seq<nat>) {
    forall i, j :: 0 <= i < |s| && 0 <= j < |s| && s[i] == s[j] ==> i == j
  }

  // ------------------------------------------------------------------ the promise

  /** Every index once, each after everything it depends on. */
  ghost predicate Topological(deps: seq<set<nat>>, order: seq<nat>) {
    && |order| == |deps| && Distinct(order)
    && (forall k :: 0 <= k < |order| ==> order[k] < |deps|)
    && (forall k :: 0 <= k < |order| ==> deps[order[k]] <= Elements(order[..k]))
  }

  predicate LexLeq(a: seq<nat>, b: seq<nat>) {
    a == [] || (b != [] && (a[0] < b[0] || (a[0] == b[0] && LexLeq(a[1..], b[1..]))))
  }

  /** A closed walk along dependencies. */
  ghost predicate IsCycle(deps: seq<set<nat>>, c: seq<nat>) {
    && c != []
    && (forall k :: 0 <= k < |c| ==> c[k] < |deps|)
    && (forall k :: 0 <= k < |c| - 1 ==> c[k + 1] in deps[c[k]])
    && c[0] in deps[c[|c| - 1]]
  }

  ghost predicate Acyclic(deps: seq<set<nat>>) { forall c :: !IsCycle(deps, c) }

  // ---------------------------------------------------------------- why it is kept

  ghost predicate Available(deps: seq<set<nat>>, placed: seq<nat>, x: nat) {
    x < |deps| && x !in placed && deps[x] <= Elements(placed)
  }

  /** Each place holds the least index available there. */
  ghost predicate Greedy(deps: seq<set<nat>>, order: seq<nat>) {
    forall k :: 0 <= k < |order| ==>
      && Available(deps, order[..k], order[k])
      && forall x: nat :: Available(deps, order[..k], x) ==> order[k] <= x
  }

  lemma GreedyMore(deps: seq<set<nat>>, order: seq<nat>, x: nat)
    requires Greedy(deps, order) && Available(deps, order, x)
    requires forall y: nat :: Available(deps, order, y) ==> x <= y
    ensures Greedy(deps, order + [x])
  {
    var longer := order + [x];
    assert longer[..|order|] == order;
    forall k | 0 <= k < |order|
      ensures longer[..k] == order[..k]
    {
    }
  }

  lemma GreedyDistinct(deps: seq<set<nat>>, order: seq<nat>)
    requires Greedy(deps, order)
    ensures Distinct(order)
  {
    forall i, j | 0 <= i < j < |order|
      ensures order[i] != order[j]
    {
      assert order[..j][i] == order[i];
      assert Available(deps, order[..j], order[j]);
    }
  }

  /** Greedy is least: at the first difference the other order takes a larger index. */
  lemma {:induction false} GreedyLeast(deps: seq<set<nat>>, order: seq<nat>, other: seq<nat>, k: nat)
    requires Greedy(deps, order) && Topological(deps, other)
    requires |order| == |other| && k <= |order| && order[..k] == other[..k]
    ensures LexLeq(order[k..], other[k..])
    decreases |order| - k
  {
    if k < |order| {
      assert Available(deps, order[..k], other[k]) by {
        assert other[k] !in other[..k];
      }
      if order[k] == other[k] {
        assert order[..k + 1] == order[..k] + [order[k]] && other[..k + 1] == other[..k] + [other[k]];
        GreedyLeast(deps, order, other, k + 1);
        assert order[k..][1..] == order[k + 1..] && other[k..][1..] == other[k + 1..];
      }
    }
  }

  /** Along a topological order a cycle would go ever further back. */
  lemma TopologicalAcyclic(deps: seq<set<nat>>, order: seq<nat>)
    requires Topological(deps, order)
    ensures Acyclic(deps)
  {
    forall c
      ensures !IsCycle(deps, c)
    {
      if IsCycle(deps, c) {
        Covers(order, |deps|);
        assert c[0] in order;
        var p :| 0 <= p < |order| && order[p] == c[0];
        var q := EarlierOnCycle(deps, order, c, |c| - 1, p);
        assert false;
      }
    }
  }

  lemma {:induction false} EarlierOnCycle(deps: seq<set<nat>>, order: seq<nat>, c: seq<nat>, k: nat, p: nat) returns (q: nat)
    requires Topological(deps, order) && IsCycle(deps, c) && k < |c|
    requires p < |order| && order[p] == c[0]
    ensures q <= p && order[q] == c[k]
  {
    if k == 0 {
      q := p;
    } else {
      var r := EarlierOnCycle(deps, order, c, k - 1, p);
      assert c[k - 1 + 1] in deps[c[k - 1]];
      assert c[k] in Elements(order[..r]);
      q :| 0 <= q < r && order[q] == c[k];
    }
  }

  // Counting: n distinct numbers below n are all of them, n + 1 are never distinct.

  lemma {:induction false} DistinctCard(s: seq<nat>)
    requires Distinct(s)
    ensures |Elements(s)| == |s|
  {
    if s != [] {
      var front := s[..|s| - 1];
      DistinctCard(front);
      assert Elements(s) == Elements(front) + {s[|s| - 1]};
      assert s[|s| - 1] !in front;
    }
  }

  function Below(n: nat): (r: set<nat>)
    ensures forall x: nat :: x in r <==> x < n
    ensures |r| == n
  {
    if n == 0 then {} else Below(n - 1) + {n - 1}
  }

  lemma SubsetCard(a: set<nat>, b: set<nat>)
    requires a <= b
    ensures |a| <= |b| && (|a| == |b| ==> a == b)
  {
    assert b == a + (b - a);
  }

  lemma Covers(s: seq<nat>, n: nat)
    requires Distinct(s) && |s| == n && forall x :: x in s ==> x < n
    ensures forall x: nat :: x < n ==> x in s
  {
    DistinctCard(s);
    SubsetCard(Elements(s), Below(n));
    forall x: nat | x < n
      ensures x in s
    {
      assert x in Below(n) && x in Elements(s);
    }
  }

  lemma Repeats(s: seq<nat>, n: nat) returns (a: nat, b: nat)
    requires |s| > n && forall x :: x in s ==> x < n
    ensures a < b < |s| && s[a] == s[b]
  {
    if Distinct(s) {
      DistinctCard(s);
      SubsetCard(Elements(s), Below(n));
      assert false;
    }
    var i, j :| 0 <= i < |s| && 0 <= j < |s| && s[i] == s[j] && i != j;
    a, b := if i < j then i else j, if i < j then j else i;
  }

  /** A walk of any length through nodes that each depend on a node outside `done`. */
  lemma {:induction false} Walk(deps: seq<set<nat>>, done: set<nat>, start: nat, n: nat) returns (w: seq<nat>)
    requires Graph(deps) && start < |deps| && start !in done
    requires forall x: nat :: x < |deps| && x !in done ==> !(deps[x] <= done)
    ensures |w| == n + 1 && forall x :: x in w ==> x < |deps| && x !in done
    ensures forall k :: 0 <= k < |w| - 1 ==> w[k] < |deps| && w[k + 1] in deps[w[k]]
  {
    if n == 0 {
      w := [start];
    } else {
      var v := Walk(deps, done, start, n - 1);
      assert v[n - 1] in v;
      var next :| next in deps[v[n - 1]] && next !in done;
      w := v + [next];
    }
  }

  /** When nothing is available any more and something is left, there is a cycle. */
  lemma StuckIsCyclic(deps: seq<set<nat>>, placed: seq<nat>)
    requires Graph(deps) && Distinct(placed) && |placed| < |deps|
    requires forall x :: x in placed ==> x < |deps|
    requires forall x: nat :: !Available(deps, placed, x)
    ensures !Acyclic(deps)
  {
    var done := Elements(placed);
    var start: nat :| start < |deps| && start !in done by {
      if forall x: nat :: x < |deps| ==> x in done {
        DistinctCard(placed);
        SubsetCard(Below(|deps|), done);
        assert false;
      }
    }
    assert forall x: nat :: x < |deps| && x !in done ==> !(deps[x] <= done) by {
      forall x: nat | x < |deps| && x !in done
        ensures !(deps[x] <= done)
      {
        assert !Available(deps, placed, x);
      }
    }
    var w := Walk(deps, done, start, |deps|);
    var a, b := Repeats(w, |deps|);
    var c := w[a..b];
    assert forall k :: 0 <= k < |c| ==> c[k] == w[a + k] && w[a + k] in w;
    assert w[b - 1 + 1] in deps[w[b - 1]];
    assert IsCycle(deps, c);
  }

  // -------------------------------------------------------------------- the code

  ghost predicate SortedNats(s: seq<nat>) { forall i, j :: 0 <= i < j < |s| ==> s[i] <= s[j] }

  method Insert(s: seq<nat>, x: nat) returns (r: seq<nat>)
    requires SortedNats(s)
    ensures SortedNats(r) && multiset(r) == multiset(s) + multiset{x}
  {
    var k := 0;
    while k < |s| && s[k] <= x
      invariant 0 <= k <= |s| && forall m :: 0 <= m < k ==> s[m] <= x
    {
      k := k + 1;
    }
    r := s[..k] + [x] + s[k..];
    InsertSorted(s, k, x);
    InsertElements(s, k, x);
  }

  lemma InsertSorted(s: seq<nat>, k: nat, x: nat)
    requires SortedNats(s) && k <= |s| && (forall m :: 0 <= m < k ==> s[m] <= x) && (k < |s| ==> x < s[k])
    ensures SortedNats(s[..k] + [x] + s[k..])
  {
    var r := s[..k] + [x] + s[k..];
    forall i | 0 <= i < |r|
      ensures r[i] == if i < k then s[i] else if i == k then x else s[i - 1]
    {
    }
  }

  lemma InsertElements(s: seq<nat>, k: nat, x: nat)
    requires k <= |s|
    ensures multiset(s[..k] + [x] + s[k..]) == multiset(s) + multiset{x}
  {
    assert s == s[..k] + s[k..];
  }

  /** Insertion sort: what the source's `sort` does to a list. */
  method Sort(s: seq<nat>) returns (r: seq<nat>)
    ensures SortedNats(r) && multiset(r) == multiset(s)
  {
    r := [];
    for i := 0 to |s|
      invariant SortedNats(r) && multiset(r) == multiset(s[..i])
    {
      assert s[..i + 1] == s[..i] + [s[i]];
      r := Insert(r, s[i]);
    }
    assert s[..|s|] == s;
  }

  datatype Tables = Tables(indegree: seq<nat>, dependents: seq<seq<nat>>)

  /** What the tables say once the first `i` resources are entered. */
  ghost predicate Entered(deps: seq<set<nat>>, i: nat, t: Tables)
    requires i <= |deps|
  {
    && |t.indegree| == |t.dependents| == |deps|
    && (forall x :: 0 <= x < |deps| ==> t.indegree[x] == if x < i then |deps[x]| else 0)
    && (forall d :: 0 <= d < |deps| ==> DependentsOf(deps, i, d, t.dependents[d]))
  }

  ghost predicate DependentsOf(deps: seq<set<nat>>, i: nat, d: nat, list: seq<nat>)
    requires i <= |deps|
  {
    Distinct(list) && forall x: nat :: x in list <==> x < i && d in deps[x]
  }

  /** Enter the dependencies of resource `i`, each once. */
  method EnterOne(rs: seq<Resource>, i: nat, t: Tables) returns (r: Option<Tables>)
    requires i < |rs| && Entered(Dependencies(rs), i, t)
    ensures r.None? <==> exists d :: d in rs[i].dependsOn && IndexOf(rs, d).None?
    ensures r.Some? ==> Entered(Dependencies(rs), i + 1, r.value)
  {
    hide IndexOf, Dependencies, Entered, DepsOf;
    assert |t.indegree| == |t.dependents| == |rs| && t.indegree[i] == 0 by { EnteredSize(Dependencies(rs), i, t); }
    var ids := rs[i].dependsOn;
    var seen: set<nat> := {};
    var indegree, dependents := t.indegree, t.dependents;
    assert indegree == indegree[i := 0];
    for k := 0 to |ids|
      invariant forall m :: 0 <= m < k ==> IndexOf(rs, ids[m]).Some? && IndexOf(rs, ids[m]).value in seen
      invariant seen <= DepsOf(rs, ids)
      invariant |dependents| == |rs| && indegree == t.indegree[i := |seen|]
      invariant forall d: nat :: d < |rs| && d !in seen ==> dependents[d] == t.dependents[d]
      invariant forall d: nat :: d < |rs| && d in seen ==> dependents[d] == t.dependents[d] + [i]
    {
      var di := IndexOf(rs, ids[k]);
      assert ids[k] in ids;
      if di.None? { return None; }
      InDeps(rs, ids, ids[k]);
      if di.value !in seen {
        seen := seen + {di.value};
        indegree := indegree[i := indegree[i] + 1];
        dependents := dependents[di.value := dependents[di.value] + [i]];
      }
    }
    r := Some(Tables(indegree, dependents));
    AllSeen(rs, ids, seen);
    EnteredOne(Dependencies(rs), i, t, r.value, seen);
  }

  lemma InDeps(rs: seq<Resource>, ids: seq<string>, id: string)
    requires id in ids && IndexOf(rs, id).Some?
    ensures IndexOf(rs, id).value in DepsOf(rs, ids)
  {
  }

  lemma EnteredSize(deps: seq<set<nat>>, i: nat, t: Tables)
    requires i < |deps| && Entered(deps, i, t)
    ensures |t.indegree| == |t.dependents| == |deps| && t.indegree[i] == 0
  {
  }

  lemma AllSeen(rs: seq<Resource>, ids: seq<string>, seen: set<nat>)
    requires seen <= DepsOf(rs, ids)
    requires forall m :: 0 <= m < |ids| ==> IndexOf(rs, ids[m]).Some? && IndexOf(rs, ids[m]).value in seen
    ensures seen == DepsOf(rs, ids) && forall d :: d in ids ==> IndexOf(rs, d).Some?
  {
    forall d | d in ids
      ensures IndexOf(rs, d).Some? && IndexOf(rs, d).value in seen
    {
      var m :| 0 <= m < |ids| && ids[m] == d;
    }
  }

  lemma EnteredOne(deps: seq<set<nat>>, i: nat, t: Tables, t': Tables, seen: set<nat>)
    requires i < |deps| && Entered(deps, i, t) && seen == deps[i]
    requires |t'.dependents| == |deps| && t'.indegree == t.indegree[i := |seen|]
    requires forall d: nat :: d < |deps| && d !in seen ==> t'.dependents[d] == t.dependents[d]
    requires forall d: nat :: d < |deps| && d in seen ==> t'.dependents[d] == t.dependents[d] + [i]
    ensures Entered(deps, i + 1, t')
  {
    forall d: nat | d < |deps|
      ensures DependentsOf(deps, i + 1, d, t'.dependents[d])
    {
      assert DependentsOf(deps, i, d, t.dependents[d]);
    }
  }

  method Enter(rs: seq<Resource>) returns (r: Option<Tables>)
    ensures r.None? <==> !DependenciesExist(rs)
    ensures r.Some? ==> Entered(Dependencies(rs), |rs|, r.value)
  {
    hide Dependencies, Entered;
    var t := Tables(seq(|rs|, i => 0), seq(|rs|, i => []));
    NothingEntered(Dependencies(rs), t);
    for i := 0 to |rs|
      invariant Entered(Dependencies(rs), i, t)
      invariant forall x, d :: 0 <= x < i && d in rs[x].dependsOn ==> IndexOf(rs, d).Some?
    {
      var next := EnterOne(rs, i, t);
      if next.None? { return None; }
      t := next.value;
    }
    r := Some(t);
  }

  lemma NothingEntered(deps: seq<set<nat>>, t: Tables)
    requires |t.indegree| == |t.dependents| == |deps|
    requires forall i :: 0 <= i < |deps| ==> t.indegree[i] == 0 && t.dependents[i] == []
    ensures Entered(deps, 0, t)
  {
  }

  /** `indegree` counts what is not placed yet, `ready` lists what is available, in order. */
  ghost predicate Counts(deps: seq<set<nat>>, placed: set<nat>, indegree: seq<nat>) {
    |indegree| == |deps| && forall x :: 0 <= x < |deps| ==> indegree[x] == |deps[x] - placed|
  }

  ghost predicate Lists(deps: seq<set<nat>>, order: seq<nat>, ready: seq<nat>) {
    && SortedNats(ready) && Distinct(ready)
    && forall x: nat :: x in ready <==> Available(deps, order, x)
  }

  /** Lower the counts of `dependents` by one and collect those that reach zero. */
  method Decrement(indegree: seq<nat>, dependents: seq<nat>) returns (lower: seq<nat>, freed: seq<nat>)
    requires Distinct(dependents) && forall x :: x in dependents ==> x < |indegree| && indegree[x] > 0
    ensures |lower| == |indegree|
    ensures forall x: nat :: x < |lower| ==> indegree[x] == lower[x] + if x in dependents then 1 else 0
    ensures Distinct(freed) && forall x: nat :: x in freed <==> x < |lower| && x in dependents && lower[x] == 0
  {
    lower, freed := indegree, [];
    for k := 0 to |dependents|
      invariant |lower| == |indegree|
      invariant forall x: nat :: x < |lower| ==> indegree[x] == lower[x] + if x in dependents[..k] then 1 else 0
      invariant Distinct(freed) && forall x: nat :: x in freed <==> x < |lower| && x in dependents[..k] && lower[x] == 0
    {
      var d := dependents[k];
      assert d in dependents && d !in dependents[..k];
      assert dependents[..k + 1] == dependents[..k] + [d];
      lower := lower[d := lower[d] - 1];
      if lower[d] == 0 { freed := freed + [d]; }
    }
    assert dependents[..|dependents|] == dependents;
  }

  /** Everything placed has its dependencies placed. */
  ghost predicate Closed(deps: seq<set<nat>>, order: seq<nat>) {
    forall x :: x in order && x < |deps| ==> deps[x] <= Elements(order)
  }

  /** Place `i`. */
  method Place(ghost deps: seq<set<nat>>, ghost order: seq<nat>, i: nat, indegree: seq<nat>, dependents: seq<nat>)
    returns (lower: seq<nat>, freed: seq<nat>)
    requires Available(deps, order, i) && Closed(deps, order)
    requires Counts(deps, Elements(order), indegree)
    requires DependentsOf(deps, |deps|, i, dependents)
    ensures Counts(deps, Elements(order + [i]), lower)
    ensures Distinct(freed)
    ensures forall x: nat :: x in freed <==> Available(deps, order + [i], x) && !Available(deps, order, x)
  {
    hide Available, Counts, Closed;
    DependentsCounted(deps, order, i, indegree, dependents);
    lower, freed := Decrement(indegree, dependents);
    PlacedCounted(deps, order, i, indegree, dependents, lower);
    forall x: nat
      ensures x in freed <==> Available(deps, order + [i], x) && !Available(deps, order, x)
    {
      NewlyAvailable(deps, order, i, x);
    }
  }

  lemma DependentsCounted(deps: seq<set<nat>>, order: seq<nat>, i: nat, indegree: seq<nat>, dependents: seq<nat>)
    requires Available(deps, order, i) && Counts(deps, Elements(order), indegree)
    requires DependentsOf(deps, |deps|, i, dependents)
    ensures |indegree| == |deps| && forall x :: x in dependents ==> x < |indegree| && indegree[x] > 0
  {
    forall x | x in dependents
      ensures x < |indegree| && indegree[x] > 0
    {
      assert i in deps[x] - Elements(order);
    }
  }

  lemma PlacedCounted(
      deps: seq<set<nat>>, order: seq<nat>, i: nat, indegree: seq<nat>, dependents: seq<nat>, lower: seq<nat>)
    requires Available(deps, order, i) && Counts(deps, Elements(order), indegree)
    requires DependentsOf(deps, |deps|, i, dependents) && |lower| == |indegree|
    requires forall x: nat :: x < |lower| ==> indegree[x] == lower[x] + if x in dependents then 1 else 0
    ensures Counts(deps, Elements(order + [i]), lower)
    ensures forall x: nat :: x < |lower| ==> lower[x] == |deps[x] - Elements(order + [i])|
  {
    CountsDrop(deps, order, i);
  }

  lemma CountsDrop(deps: seq<set<nat>>, order: seq<nat>, i: nat)
    requires i !in order
    ensures forall x :: 0 <= x < |deps| ==>
      |deps[x] - Elements(order + [i])| == |deps[x] - Elements(order)| - if i in deps[x] then 1 else 0
  {
    assert Elements(order + [i]) == Elements(order) + {i};
    forall x | 0 <= x < |deps|
      ensures |deps[x] - Elements(order + [i])| == |deps[x] - Elements(order)| - if i in deps[x] then 1 else 0
    {
      var before, after := deps[x] - Elements(order), deps[x] - Elements(order + [i]);
      if i in deps[x] {
        assert before == after + {i};
      } else {
        assert before == after;
      }
    }
  }

  lemma NewlyAvailable(deps: seq<set<nat>>, order: seq<nat>, i: nat, x: nat)
    requires Available(deps, order, i) && Closed(deps, order)
    ensures Available(deps, order + [i], x) && !Available(deps, order, x) <==>
      x < |deps| && i in deps[x] && |deps[x] - Elements(order + [i])| == 0
  {
    assert Elements(order + [i]) == Elements(order) + {i};
    if x < |deps| {
      EmptyDifference(deps[x], Elements(order + [i]));
    }
  }

  lemma EmptyDifference(a: set<nat>, b: set<nat>)
    ensures |a - b| == 0 <==> a <= b
  {
    assert forall x :: x in a ==> x in b || x in a - b;
    if |a - b| == 0 { assert a - b == {}; }
  }

  lemma DistinctConcat(a: seq<nat>, b: seq<nat>)
    requires Distinct(a) && Distinct(b) && forall x :: x in a ==> x !in b
    ensures Distinct(a + b)
  {
    var s := a + b;
    forall i, j | 0 <= i < j < |s|
      ensures s[i] != s[j]
    {
      if i < |a| { assert s[i] in a; }
      if j >= |a| { assert s[j] in b; }
    }
  }

  /** Rearranging a list without repeats leaves it without repeats. */
  lemma DistinctRearranged(s: seq<nat>, r: seq<nat>)
    requires Distinct(s) && multiset(r) == multiset(s)
    ensures Distinct(r) && forall x: nat :: x in r <==> x in s
  {
    forall x: nat
      ensures x in r <==> x in s
    {
      assert x in r <==> x in multiset(r);
      assert x in s <==> x in multiset(s);
    }
    DistinctCard(s);
    assert Elements(r) == Elements(s);
    assert |multiset(r)| == |r| && |multiset(s)| == |s|;
    CardDistinct(r);
  }

  lemma {:induction false} CardDistinct(s: seq<nat>)
    requires |Elements(s)| == |s|
    ensures Distinct(s)
  {
    if s != [] {
      var front, last := s[..|s| - 1], s[|s| - 1];
      assert Elements(s) == Elements(front) + {last};
      ElementsCard(front);
      assert last in front ==> Elements(s) == Elements(front);
      CardDistinct(front);
    }
  }

  lemma {:induction false} ElementsCard(s: seq<nat>)
    ensures |Elements(s)| <= |s|
  {
    if s != [] {
      ElementsCard(s[..|s| - 1]);
      assert Elements(s) == Elements(s[..|s| - 1]) + {s[|s| - 1]};
    }
  }

  /** Success exactly when every dependency exists and nothing depends on itself through
      others; then the least order, by declaration, among all that respect dependencies. */
  method ExecutionOrder(rs: seq<Resource>) returns (r: Result<seq<nat>, OrderError>)
    ensures r.Ok? <==> DependenciesExist(rs) && Acyclic(Dependencies(rs))
    ensures r == Err(UnknownDependency) <==> !DependenciesExist(rs)
    ensures r.Ok? ==> Topological(Dependencies(rs), r.value)
    ensures r.Ok? ==> forall other :: Topological(Dependencies(rs), other) ==> LexLeq(r.value, other)
  {
    hide Dependencies, Acyclic, Topological, Greedy, Counts, Lists, LexLeq, Closed;
    ghost var deps := Dependencies(rs);
    var tables := Enter(rs);
    if tables.None? { return Err(UnknownDependency); }
    var indegree := tables.value.indegree;
    var ready := InitialReady(deps, indegree);
    var order: seq<nat> := [];
    NothingPlaced(deps, tables.value);
    while ready != []
      invariant |order| <= |rs| && Graph(deps)
      invariant Greedy(deps, order) && Counts(deps, Elements(order), indegree) && Lists(deps, order, ready)
      decreases |rs| - |order|
    {
      var i := ready[0];
      FirstIsLeast(deps, order, ready);
      GreedyClosed(deps, order);
      ghost var before, listed := order, ready;
      ready := ready[1..];
      order := order + [i];
      GreedyMore(deps, before, i);
      GreedyBounded(deps, order);
      var freed;
      assert DependentsOf(deps, |deps|, i, tables.value.dependents[i]);
      indegree, freed := Place(deps, before, i, indegree, tables.value.dependents[i]);
      ghost var unsorted := ready + freed;
      ready := Sort(ready + freed);
      RemainsListed(deps, before, listed, freed, unsorted, ready);
    }
    NothingAvailable(deps, order);
    if |order| != |rs| {
      GreedyBounded(deps, order);
      StuckIsCyclic(deps, order);
      return Err(Cycle);
    }
    GreedyIsTopological(deps, order);
    TopologicalAcyclic(deps, order);
    r := Ok(order);
    forall other | Topological(deps, other)
      ensures LexLeq(order, other)
    {
      GreedyIsLeast(deps, order, other);
    }
  }

  method InitialReady(ghost deps: seq<set<nat>>, indegree: seq<nat>) returns (ready: seq<nat>)
    requires Graph(deps) && Counts(deps, {}, indegree)
    ensures Lists(deps, [], ready)
  {
    var zero: seq<nat> := [];
    for i := 0 to |indegree|
      invariant Distinct(zero) && forall x: nat :: x in zero <==> x < i && indegree[x] == 0
    {
      if indegree[i] == 0 { zero := zero + [i]; }
    }
    ready := Sort(zero);
    DistinctRearranged(zero, ready);
    assert Elements([]) == {};
    forall x: nat
      ensures x in ready <==> Available(deps, [], x)
    {
      if x < |deps| { EmptyDifference(deps[x], {}); }
    }
  }

  lemma NothingPlaced(deps: seq<set<nat>>, t: Tables)
    requires Entered(deps, |deps|, t)
    ensures Greedy(deps, []) && Counts(deps, {}, t.indegree) && Elements([]) == {}
  {
    assert forall x :: 0 <= x < |deps| ==> deps[x] - {} == deps[x];
  }

  lemma GreedyClosed(deps: seq<set<nat>>, order: seq<nat>)
    requires Greedy(deps, order)
    ensures Closed(deps, order)
  {
    forall x | x in order && x < |deps|
      ensures deps[x] <= Elements(order)
    {
      var k :| 0 <= k < |order| && order[k] == x;
      assert Available(deps, order[..k], order[k]);
      assert Elements(order[..k]) <= Elements(order);
    }
  }

  lemma FirstIsLeast(deps: seq<set<nat>>, order: seq<nat>, ready: seq<nat>)
    requires Lists(deps, order, ready) && ready != []
    ensures Available(deps, order, ready[0])
    ensures forall y: nat :: Available(deps, order, y) ==> ready[0] <= y
  {
    assert ready[0] in ready;
    forall y: nat | Available(deps, order, y)
      ensures ready[0] <= y
    {
      var k :| 0 <= k < |ready| && ready[k] == y;
    }
  }

  lemma NothingAvailable(deps: seq<set<nat>>, order: seq<nat>)
    requires Lists(deps, order, [])
    ensures forall x: nat :: !Available(deps, order, x)
  {
    forall x: nat
      ensures !Available(deps, order, x)
    {
      assert x !in [];
    }
  }

  lemma GreedyBounded(deps: seq<set<nat>>, order: seq<nat>)
    requires Greedy(deps, order)
    ensures Distinct(order) && |order| <= |deps| && forall x :: x in order ==> x < |deps|
  {
    GreedyDistinct(deps, order);
    DistinctCard(order);
    assert forall k :: 0 <= k < |order| ==> Available(deps, order[..k], order[k]);
    SubsetCard(Elements(order), Below(|deps|));
  }

  lemma GreedyIsTopological(deps: seq<set<nat>>, order: seq<nat>)
    requires Greedy(deps, order) && |order| == |deps|
    ensures Topological(deps, order)
  {
    GreedyDistinct(deps, order);
    assert forall k :: 0 <= k < |order| ==> Available(deps, order[..k], order[k]);
  }

  lemma GreedyIsLeast(deps: seq<set<nat>>, order: seq<nat>, other: seq<nat>)
    requires Greedy(deps, order) && |order| == |deps| && Topological(deps, other)
    ensures LexLeq(order, other)
  {
    GreedyLeast(deps, order, other, 0);
    assert order[0..] == order && other[0..] == other;
  }

  lemma RemainsListed(
      deps: seq<set<nat>>, order: seq<nat>, ready: seq<nat>, freed: seq<nat>, both: seq<nat>, sorted: seq<nat>)
    requires Lists(deps, order, ready) && ready != [] && Distinct(freed)
    requires forall x: nat :: x in freed <==> Available(deps, order + [ready[0]], x) && !Available(deps, order, x)
    requires both == ready[1..] + freed && SortedNats(sorted) && multiset(sorted) == multiset(both)
    ensures Lists(deps, order + [ready[0]], sorted)
  {
    var i, rest := ready[0], ready[1..];
    assert ready == [i] + rest && i !in rest && i in ready;
    assert Elements(order + [i]) == Elements(order) + {i};
    assert forall x :: x in rest ==> x in ready;
    DistinctConcat(rest, freed);
    DistinctRearranged(both, sorted);
    forall x: nat
      ensures x in sorted <==> Available(deps, order + [i], x)
    {
    }
  }
}
