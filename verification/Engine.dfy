/** The resource stage: condition, then dependency gate, then dispatch, until something stops. */
module Engine {
  import opened Wrappers
  import opened Model
  import opened Ordering
  import opened Results
  import opened Effects
  import Evaluation
  import Text

  datatype Mode = Plan | Apply

  datatype Cond = Holds(value: bool) | Undecided | CondError

  datatype Mutation = NoMutation | Mutated | MayHaveMutated

  /** What dispatching gives: a result, with the guard that planning a command found satisfied and
      what a command stores in the register it may name, or an error. */
  datatype Dispatch =
    | Done(result: ResourceResult, guard: Option<Guard>, register: Option<Evaluation.EvalVal>)
    | Raised(indeterminate: bool, mutation: Mutation)

  /** What conditions and dispatched resources come out as: any function of the resource and
      of what happened before it. */
  datatype World = World(
    when: (nat, seq<ResourceResult>) -> Cond,
    dispatch: (nat, seq<ResourceResult>) -> Dispatch)

  datatype Outcome = Outcome(
    result: ResourceResult,
    dispatched: bool,
    guard: Option<Guard>,
    register: Option<Evaluation.EvalVal>)

  /** A result without a look at any guard, and nothing stored. */
  function Told(result: ResourceResult, dispatched: bool): Outcome { Outcome(result, dispatched, None, None) }

  datatype Gate = Open | Blocked | BlockedUnknown

  /** The result recorded last under an id. */
  function LastResult(out: seq<ResourceResult>, id: string): (r: Option<ResourceResult>)
    ensures r.Some? ==> r.value in out && r.value.id == id
    ensures r.None? <==> forall x :: x in out ==> x.id != id
  {
    if out == [] then None
    else if out[|out| - 1].id == id then Some(out[|out| - 1])
    else LastResult(out[..|out| - 1], id)
  }

  /** The first dependency that is not satisfied decides. */
  function DependencyGate(out: seq<ResourceResult>, deps: seq<string>): (g: Gate)
    ensures g == Open <==>
      forall d :: d in deps ==> LastResult(out, d).Some? && LastResult(out, d).value.SatisfiesDependency()
  {
    if deps == [] then Open
    else
      match LastResult(out, deps[0])
      case Some(dr) =>
        if dr.SatisfiesDependency() then DependencyGate(out, deps[1..])
        else if dr.IsUnknownDependency() then BlockedUnknown
        else Blocked
      case None => Blocked
  }

  /** The truthful result of an error: failed, or indeterminate with a possible change. */
  function FailedResult(id: string, indeterminate: bool, mutation: Mutation): ResourceResult {
    ResourceResult(
      id,
      if indeterminate then Indeterminate else Failed,
      match mutation
        case NoMutation => if indeterminate then Possible else Unchanged
        case Mutated => Changed
        case MayHaveMutated => Possible,
      if indeterminate then VerifyUnknown else NotPerformed,
      Normal,
      false)
  }

  predicate HasStopped(out: seq<ResourceResult>) { exists r :: r in out && r.Stops() }

  /** One iteration, given the results so far; None is a plan error, which ends the run. */
  function Decide(rs: seq<Resource>, mode: Mode, w: World, i: nat, out: seq<ResourceResult>): (o: Option<Outcome>)
    requires i < |rs|
  {
    var res := rs[i];
    if HasStopped(out) then Some(Told(NotRunResult(res.id, BlockedByFailFast, false), false))
    else
      match w.when(i, out)
      case CondError =>
        if mode == Plan then None else Some(Told(FailedResult(res.id, false, NoMutation), false))
      case Undecided =>
        if mode == Apply then Some(Told(FailedResult(res.id, false, NoMutation), false))
        else Some(Told(NotRunResult(res.id, Normal, true), false))
      case Holds(false) => Some(Told(NotRunResult(res.id, SkippedByCondition, false), false))
      case Holds(true) =>
        match DependencyGate(out, res.dependsOn)
        case Blocked => Some(Told(NotRunResult(res.id, BlockedByDependency, false), false))
        case BlockedUnknown => Some(Told(NotRunResult(res.id, Normal, true), false))
        case Open =>
          match w.dispatch(i, out)
          case Done(r, guard, register) =>
            Some(Outcome(r.(id := res.id), true, if mode == Plan then guard else None, register))
          case Raised(ind, mutation) =>
            if mode == Plan then None else Some(Told(FailedResult(res.id, ind, mutation), true))
  }

  function ResultsOf(h: seq<Outcome>): (out: seq<ResourceResult>)
    ensures |out| == |h| && forall k :: 0 <= k < |h| ==> out[k] == h[k].result
  {
    seq(|h|, k requires 0 <= k < |h| => h[k].result)
  }

  ghost predicate Indices(rs: seq<Resource>, order: seq<nat>) {
    forall k :: 0 <= k < |order| ==> order[k] < |rs|
  }

  /** The whole stage: what happens to each resource of `order`, in order. */
  function History(rs: seq<Resource>, mode: Mode, w: World, order: seq<nat>): (h: Option<seq<Outcome>>)
    requires Indices(rs, order)
    ensures h.Some? ==> |h.value| == |order|
  {
    if order == [] then Some([])
    else
      match History(rs, mode, w, order[..|order| - 1])
      case None => None
      case Some(h) =>
        match Decide(rs, mode, w, order[|order| - 1], ResultsOf(h))
        case None => None
        case Some(o) => Some(h + [o])
  }

  // -------------------------------------------------------------- over every run

  /** Each outcome is decided from the results before it. */
  lemma {:induction false} HistoryAt(rs: seq<Resource>, mode: Mode, w: World, order: seq<nat>, k: nat)
    requires Indices(rs, order) && History(rs, mode, w, order).Some? && k < |order|
    ensures var h := History(rs, mode, w, order).value;
            Decide(rs, mode, w, order[k], ResultsOf(h[..k])) == Some(h[k])
    ensures HistoryPrefix(rs, mode, w, order, k)
  {
    var n := |order| - 1;
    var h, h' := History(rs, mode, w, order).value, History(rs, mode, w, order[..n]).value;
    assert h[..n] == h';
    if k < n {
      HistoryAt(rs, mode, w, order[..n], k);
      assert h[..k] == h'[..k] && order[..n][..k] == order[..k];
    }
  }

  ghost predicate HistoryPrefix(rs: seq<Resource>, mode: Mode, w: World, order: seq<nat>, k: nat)
    requires Indices(rs, order) && History(rs, mode, w, order).Some? && k < |order|
  {
    History(rs, mode, w, order[..k]) == Some(History(rs, mode, w, order).value[..k])
  }

  /** What dispatching returns when it does not raise: nothing the engine itself reports. */
  ghost predicate Sane(w: World) {
    forall i, out :: w.dispatch(i, out).Done? ==> w.dispatch(i, out).result.disposition in {Normal, GuardSatisfied}
  }

  /** One result per resource, in order, under its id. */
  lemma OneResultEach(rs: seq<Resource>, mode: Mode, w: World, order: seq<nat>, k: nat)
    requires Indices(rs, order) && History(rs, mode, w, order).Some? && k < |order|
    ensures History(rs, mode, w, order).value[k].result.id == rs[order[k]].id
  {
    HistoryAt(rs, mode, w, order, k);
  }

  /** Nothing but a dispatched resource ever satisfies a dependency. */
  lemma SatisfiedWasDispatched(rs: seq<Resource>, mode: Mode, w: World, order: seq<nat>, k: nat)
    requires Indices(rs, order) && History(rs, mode, w, order).Some? && k < |order|
    ensures var o := History(rs, mode, w, order).value[k];
            o.result.SatisfiesDependency() ==> o.dispatched
  {
    HistoryAt(rs, mode, w, order, k);
  }

  /** After the first failed or indeterminate result nothing is dispatched any more and every
      result is blocked-by-fail-fast; before it none is. */
  lemma FailFast(rs: seq<Resource>, mode: Mode, w: World, order: seq<nat>, k: nat)
    requires Indices(rs, order) && History(rs, mode, w, order).Some? && k < |order| && Sane(w)
    ensures var h := History(rs, mode, w, order).value;
      && (HasStopped(ResultsOf(h[..k])) ==>
            !h[k].dispatched && h[k].result == NotRunResult(rs[order[k]].id, BlockedByFailFast, false))
      && (h[k].result.disposition == BlockedByFailFast <==> exists m :: 0 <= m < k && h[m].result.Stops())
  {
    var h := History(rs, mode, w, order).value;
    HistoryAt(rs, mode, w, order, k);
    var before := ResultsOf(h[..k]);
    if HasStopped(before) {
      var r :| r in before && r.Stops();
      var m :| 0 <= m < k && before[m] == r;
      assert h[m].result.Stops();
    } else {
      forall m | 0 <= m < k
        ensures !h[m].result.Stops()
      {
        assert before[m] in before;
      }
    }
  }

  /** `m` is a position before `k` where resource `j` was dispatched, its condition true, and
      its result satisfies dependents. */
  ghost predicate RanBefore(h: seq<Outcome>, w: World, order: seq<nat>, k: nat, m: nat, j: nat)
    requires k <= |h| == |order|
  {
    && m < k && order[m] == j && h[m].dispatched && h[m].result.SatisfiesDependency()
    && w.when(j, ResultsOf(h[..m])) == Holds(true)
  }

  /** Where an open gate's dependency ran. */
  lemma DependencyRan(rs: seq<Resource>, mode: Mode, w: World, order: seq<nat>, k: nat, d: string) returns (m: nat)
    requires Indices(rs, order) && History(rs, mode, w, order).Some? && k < |order| && UniqueIds(rs)
    requires var before := ResultsOf(History(rs, mode, w, order).value[..k]);
             LastResult(before, d).Some? && LastResult(before, d).value.SatisfiesDependency()
    ensures m < k && IndexOf(rs, d) == Some(order[m])
    ensures RanBefore(History(rs, mode, w, order).value, w, order, k, m, order[m])
  {
    hide History;
    var h := History(rs, mode, w, order).value;
    var before := ResultsOf(h[..k]);
    var r := LastResult(before, d).value;
    m :| 0 <= m < k && before[m] == r;
    OneResultEach(rs, mode, w, order, m);
    SatisfiedWasDispatched(rs, mode, w, order, m);
    HistoryAt(rs, mode, w, order, m);
    UniqueIndex(rs, order[m]);
  }

  /** Dispatched means: condition true, nothing stopped, every direct dependency ran and satisfies. */
  lemma DispatchGate(rs: seq<Resource>, mode: Mode, w: World, order: seq<nat>, k: nat)
    requires Indices(rs, order) && History(rs, mode, w, order).Some? && k < |order|
    requires UniqueIds(rs) && History(rs, mode, w, order).value[k].dispatched
    ensures var h := History(rs, mode, w, order).value;
      && w.when(order[k], ResultsOf(h[..k])) == Holds(true)
      && !HasStopped(ResultsOf(h[..k]))
      && (forall d :: d in rs[order[k]].dependsOn ==> IndexOf(rs, d).Some?)
      && (forall j :: j in Dependencies(rs)[order[k]] ==> exists m: nat :: RanBefore(h, w, order, k, m, j))
  {
    hide History, RanBefore;
    var h := History(rs, mode, w, order).value;
    HistoryAt(rs, mode, w, order, k);
    forall d | d in rs[order[k]].dependsOn
      ensures IndexOf(rs, d).Some? && exists m: nat :: RanBefore(h, w, order, k, m, IndexOf(rs, d).value)
    {
      var m := DependencyRan(rs, mode, w, order, k, d);
    }
  }

  lemma UniqueIndex(rs: seq<Resource>, i: nat)
    requires UniqueIds(rs) && i < |rs|
    ensures IndexOf(rs, rs[i].id) == Some(i)
  {
  }

  /** A walk of one or more dependency edges from `i`; its last element is what it reaches. */
  ghost predicate Chain(deps: seq<set<nat>>, i: nat, c: seq<nat>) {
    && |c| >= 2 && c[0] == i
    && (forall k :: 0 <= k < |c| ==> c[k] < |deps|)
    && (forall k :: 0 <= k < |c| - 1 ==> c[k + 1] in deps[c[k]])
  }

  lemma ChainTail(deps: seq<set<nat>>, i: nat, c: seq<nat>)
    requires Chain(deps, i, c) && |c| > 2
    ensures Chain(deps, c[1], c[1..])
  {
    var t := c[1..];
    forall x | 0 <= x < |t| - 1
      ensures t[x + 1] in deps[t[x]]
    {
      var y := x + 1;
      assert c[y + 1] in deps[c[y]];
    }
  }

  /** Every resource reached through any number of dependencies ran before, and satisfied. */
  lemma {:induction false} TransitiveGate(rs: seq<Resource>, mode: Mode, w: World, order: seq<nat>, k: nat, c: seq<nat>)
    returns (m: nat)
    requires Indices(rs, order) && History(rs, mode, w, order).Some? && k < |order|
    requires UniqueIds(rs) && History(rs, mode, w, order).value[k].dispatched
    requires Chain(Dependencies(rs), order[k], c)
    ensures RanBefore(History(rs, mode, w, order).value, w, order, k, m, c[|c| - 1])
  {
    hide History, Dependencies;
    DispatchGate(rs, mode, w, order, k);
    var h := History(rs, mode, w, order).value;
    assert c[0 + 1] in Dependencies(rs)[c[0]];
    var m0: nat :| RanBefore(h, w, order, k, m0, c[1]);
    if |c| == 2 {
      m := m0;
    } else {
      ChainTail(Dependencies(rs), order[k], c);
      m := TransitiveGate(rs, mode, w, order, m0, c[1..]);
    }
  }

  /** With an order that respects dependencies, none is ever "not processed". */
  lemma AlwaysProcessed(rs: seq<Resource>, mode: Mode, w: World, order: seq<nat>, k: nat, d: string)
    requires Topological(Dependencies(rs), order) && DependenciesExist(rs)
    requires Indices(rs, order) && History(rs, mode, w, order).Some? && k < |order|
    requires d in rs[order[k]].dependsOn
    ensures LastResult(ResultsOf(History(rs, mode, w, order).value[..k]), d).Some?
  {
    hide History;
    var h := History(rs, mode, w, order).value;
    var j := IndexOf(rs, d).value;
    assert j in Dependencies(rs)[order[k]];
    assert j in Elements(order[..k]);
    var m :| 0 <= m < k && order[m] == j;
    OneResultEach(rs, mode, w, order, m);
    assert ResultsOf(h[..k])[m] == h[m].result;
    assert h[m].result in ResultsOf(h[..k]);
  }

  // ---------------------------------------------------------------- notifications

  /** Handlers queued by definite changes, in name order and once each, as a key set is. */
  function Queue(names: seq<string>, h: string): (r: seq<string>)
    ensures forall x :: x in r <==> x in names || x == h
  {
    if names == [] then [h]
    else if h == names[0] then names
    else if Text.LexLess(h, names[0]) then [h] + names
    else [names[0]] + Queue(names[1..], h)
  }

  function QueueAll(names: seq<string>, hs: seq<string>): (r: seq<string>)
    ensures forall x :: x in r <==> x in names || x in hs
    decreases |hs|
  {
    if hs == [] then names else QueueAll(Queue(names, hs[0]), hs[1..])
  }

  function Notified(rs: seq<Resource>, order: seq<nat>, h: seq<Outcome>): (names: seq<string>)
    requires Indices(rs, order) && |h| <= |order|
    ensures forall x :: x in names <==> exists k :: 0 <= k < |h| && Notifies(rs, order, h, k, x)
  {
    if h == [] then []
    else
      var n := |h| - 1;
      var before := Notified(rs, order, h[..n]);
      assert forall k, x :: 0 <= k < n ==> (Notifies(rs, order, h[..n], k, x) <==> Notifies(rs, order, h, k, x));
      if h[n].dispatched && h[n].result.DefinitelyChanged() then
        var names := QueueAll(before, rs[order[n]].notify);
        assert forall x :: x in rs[order[n]].notify <==> Notifies(rs, order, h, n, x);
        names
      else before
  }

  ghost predicate Notifies(rs: seq<Resource>, order: seq<nat>, h: seq<Outcome>, k: nat, x: string)
    requires Indices(rs, order) && |h| <= |order| && k < |h|
  {
    h[k].dispatched && h[k].result.DefinitelyChanged() && x in rs[order[k]].notify
  }

  ghost predicate InNameOrder(names: seq<string>) {
    forall i, j :: 0 <= i < j < |names| ==> Text.LexLess(names[i], names[j])
  }

  lemma {:induction false} QueueInOrder(names: seq<string>, h: string)
    requires InNameOrder(names)
    ensures InNameOrder(Queue(names, h))
  {
    if names != [] && h != names[0] {
      Text.LexTotal(h, names[0]);
      var r := Queue(names, h);
      if Text.LexLess(h, names[0]) {
        forall j | 0 <= j < |names|
          ensures Text.LexLess(h, names[j])
        {
          if j > 0 { Text.LexTransitive(h, names[0], names[j]); }
        }
      } else {
        QueueInOrder(names[1..], h);
        forall j | 1 <= j < |r|
          ensures Text.LexLess(names[0], r[j])
        {
          assert r[j] in Queue(names[1..], h);
        }
      }
    }
  }

  lemma {:induction false} QueueAllInOrder(names: seq<string>, hs: seq<string>)
    requires InNameOrder(names)
    ensures InNameOrder(QueueAll(names, hs))
    decreases |hs|
  {
    if hs != [] {
      QueueInOrder(names, hs[0]);
      QueueAllInOrder(Queue(names, hs[0]), hs[1..]);
    }
  }

  /** The queue holds each notified handler once, in name order. */
  lemma {:induction false} NotifiedInOrder(rs: seq<Resource>, order: seq<nat>, h: seq<Outcome>)
    requires Indices(rs, order) && |h| <= |order|
    ensures InNameOrder(Notified(rs, order, h))
  {
    if h != [] {
      NotifiedInOrder(rs, order, h[..|h| - 1]);
      QueueAllInOrder(Notified(rs, order, h[..|h| - 1]), rs[order[|h| - 1]].notify);
    }
  }

  /** What plan has recorded when it reaches the position behind `h`. */
  function Reached(rs: seq<Resource>, mode: Mode, start: Planned, order: seq<nat>, h: seq<Outcome>): Planned
    requires Indices(rs, order) && |h| <= |order|
    decreases |h|, 1
  {
    if mode == Apply || h == [] then PlannedAlong(rs, mode, start, order, h)
    else PlannedAlong(rs, mode, start, order, h).Record(rs[order[|h| - 1]], h[|h| - 1].result)
  }

  /** What plan has recorded once `h` is decided: the results before the last, and the guards. */
  function PlannedAlong(rs: seq<Resource>, mode: Mode, start: Planned, order: seq<nat>, h: seq<Outcome>): Planned
    requires Indices(rs, order) && |h| <= |order|
    decreases |h|, 0
  {
    if mode == Apply || h == [] then start
    else
      var n := |h| - 1;
      var reached := Reached(rs, mode, start, order, h[..n]);
      if h[n].guard.Some? then reached.GuardMayFlip(rs[order[n]].id, h[n].guard.value) else reached
  }

  /** Nothing at the first `n` positions may have changed `path` or an ancestor of it. */
  ghost predicate QuietUpTo(rs: seq<Resource>, order: seq<nat>, h: seq<Outcome>, n: nat, path: string)
    requires Indices(rs, order) && n <= |h| <= |order|
  {
    forall k :: 0 <= k < n ==> Quiet(rs[order[k]], h[k].result, path)
  }

  /** The satisfied guard at position `k` cannot flip: nothing planned before reaches its path, and
      if links lead to it nothing planned before has a path at all. */
  ghost predicate GuardHolds(rs: seq<Resource>, start: Planned, order: seq<nat>, h: seq<Outcome>, k: nat)
    requires Indices(rs, order) && k < |h| <= |order|
  {
    h[k].guard.Some? ==>
      && start.Affecting(h[k].guard.value.path).None?
      && QuietUpTo(rs, order, h, k, h[k].guard.value.path)
      && (h[k].guard.value.aliased ==>
            start.paths == [] && forall j :: 0 <= j < k ==> !AddsPath(rs[order[j]], h[j].result))
  }

  /** What a plan has recorded says of a path: it is given as unaffected exactly when nothing
      reported so far may have changed it or an ancestor, and no satisfied guard may have flipped. */
  lemma {:induction false} PlannedExact(rs: seq<Resource>, start: Planned, order: seq<nat>, h: seq<Outcome>, path: string)
    requires Indices(rs, order) && |h| <= |order|
    ensures Reached(rs, Plan, start, order, h).Affecting(path).None? <==>
      && start.Affecting(path).None? && QuietUpTo(rs, order, h, |h|, path)
      && forall k :: 0 <= k < |h| ==> GuardHolds(rs, start, order, h, k)
    ensures Reached(rs, Plan, start, order, h).paths == [] <==>
      start.paths == [] && forall j :: 0 <= j < |h| ==> !AddsPath(rs[order[j]], h[j].result)
    decreases |h|
  {
    hide Quiet, AddsPath, GuardHolds, QuietUpTo;
    if h == [] {
      QuietStep(rs, order, h, path);
    } else {
      var n := |h| - 1;
      PlannedExact(rs, start, order, h[..n], path);
      PlannedStep(rs, start, order, h, path);
      QuietStep(rs, order, h, path);
      forall k | 0 <= k < n
        ensures GuardHolds(rs, start, order, h[..n], k) <==> GuardHolds(rs, start, order, h, k)
      {
        GuardHoldsPrefix(rs, start, order, h, n, k);
      }
      if h[n].guard.Some? {
        PlannedExact(rs, start, order, h[..n], h[n].guard.value.path);
        QuietStep(rs, order, h, h[n].guard.value.path);
      }
      GuardLast(rs, start, order, h);
      AddsStep(rs, order, h);
    }
  }

  /** One more position, in terms of what was recorded when it was reached. */
  lemma PlannedStep(rs: seq<Resource>, start: Planned, order: seq<nat>, h: seq<Outcome>, path: string)
    requires Indices(rs, order) && 0 < |h| <= |order|
    ensures var n := |h| - 1;
      var reached := Reached(rs, Plan, start, order, h[..n]);
      && (Reached(rs, Plan, start, order, h).Affecting(path).None? <==>
            && reached.Affecting(path).None? && Quiet(rs[order[n]], h[n].result, path)
            && (h[n].guard.Some? ==>
                  reached.Affecting(h[n].guard.value.path).None? && !(h[n].guard.value.aliased && reached.paths != [])))
      && (Reached(rs, Plan, start, order, h).paths == [] <==> reached.paths == [] && !AddsPath(rs[order[n]], h[n].result))
  {
    hide Quiet, AddsPath, Planned.Record, Planned.GuardMayFlip, Planned.Affecting;
    var n := |h| - 1;
    RecordExact(PlannedAlong(rs, Plan, start, order, h), rs[order[n]], h[n].result, path);
    if h[n].guard.Some? {
      GuardExact(Reached(rs, Plan, start, order, h[..n]), rs[order[n]].id, h[n].guard.value, path);
    }
  }

  lemma QuietStep(rs: seq<Resource>, order: seq<nat>, h: seq<Outcome>, path: string)
    requires Indices(rs, order) && |h| <= |order|
    ensures h == [] ==> QuietUpTo(rs, order, h, 0, path)
    ensures h != [] ==> var n := |h| - 1;
      && (QuietUpTo(rs, order, h, n, path) <==> QuietUpTo(rs, order, h[..n], n, path))
      && (QuietUpTo(rs, order, h, |h|, path) <==>
            QuietUpTo(rs, order, h[..n], n, path) && Quiet(rs[order[n]], h[n].result, path))
  {
    hide Quiet;
  }

  lemma GuardHoldsPrefix(rs: seq<Resource>, start: Planned, order: seq<nat>, h: seq<Outcome>, n: nat, k: nat)
    requires Indices(rs, order) && k < n <= |h| <= |order|
    ensures GuardHolds(rs, start, order, h[..n], k) <==> GuardHolds(rs, start, order, h, k)
  {
    hide Quiet, AddsPath;
  }

  lemma GuardLast(rs: seq<Resource>, start: Planned, order: seq<nat>, h: seq<Outcome>)
    requires Indices(rs, order) && 0 < |h| <= |order|
    ensures var n := |h| - 1;
      GuardHolds(rs, start, order, h, n) <==>
        (h[n].guard.Some? ==>
          && start.Affecting(h[n].guard.value.path).None? && QuietUpTo(rs, order, h, n, h[n].guard.value.path)
          && (h[n].guard.value.aliased ==>
                start.paths == [] && forall j :: 0 <= j < n ==> !AddsPath(rs[order[j]], h[..n][j].result)))
  {
    hide QuietUpTo, AddsPath;
  }

  lemma AddsStep(rs: seq<Resource>, order: seq<nat>, h: seq<Outcome>)
    requires Indices(rs, order) && 0 < |h| <= |order|
    ensures var n := |h| - 1;
      (forall j :: 0 <= j < |h| ==> !AddsPath(rs[order[j]], h[j].result)) <==>
        (forall j :: 0 <= j < n ==> !AddsPath(rs[order[j]], h[..n][j].result)) && !AddsPath(rs[order[n]], h[n].result)
  {
    hide AddsPath;
  }

  /** A warning about a path, once given, is given for the rest of the plan. */
  lemma WarningStays(rs: seq<Resource>, start: Planned, order: seq<nat>, h: seq<Outcome>, k: nat, path: string)
    requires Indices(rs, order) && |h| <= |order| && k <= |h|
    requires Reached(rs, Plan, start, order, h[..k]).Affecting(path).Some?
    ensures Reached(rs, Plan, start, order, h).Affecting(path).Some?
  {
    hide Reached, Quiet, AddsPath, GuardHolds;
    PlannedExact(rs, start, order, h[..k], path);
    PlannedExact(rs, start, order, h, path);
    forall m | 0 <= m < k
      ensures GuardHolds(rs, start, order, h[..k], m) <==> GuardHolds(rs, start, order, h, m)
    {
      GuardHoldsPrefix(rs, start, order, h, k, m);
    }
  }
}
