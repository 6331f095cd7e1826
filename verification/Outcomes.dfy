/** Why a resource was run or not, read off its result, over every run: said with the four dimensions of
    the results before it, which are what is reported. */
module Outcomes {
  import opened Wrappers
  import opened Model
  import opened Ordering
  import opened Results
  import opened Effects
  import opened Engine

  /** Failed or indeterminate. */
  predicate Broken(r: ResourceResult) { r.execution in {Failed, Indeterminate} }

  /** A satisfied guard, or a normal success whose verification does not say otherwise. */
  predicate Satisfying(r: ResourceResult) {
    || r.disposition == GuardSatisfied
    || (r.disposition == Normal && r.execution == Succeeded && r.verification in {NotApplicable, NotPerformed, Verified})
  }

  /** Not known to have failed its dependents: not predicted, or a success that could not be verified. */
  predicate Doubtful(r: ResourceResult) {
    r.unknown || (r.disposition == Normal && r.execution == Succeeded && r.verification == VerifyUnknown)
  }

  ghost predicate StoppedBefore(h: seq<Outcome>, k: nat)
    requires k <= |h|
  {
    exists j :: 0 <= j < k && Broken(h[j].result)
  }

  /** Resource `d` came before `k`, at `j`. */
  ghost predicate CameAt(rs: seq<Resource>, order: seq<nat>, k: nat, d: string, j: nat)
    requires Indices(rs, order) && k <= |order|
  {
    j < k && rs[order[j]].id == d
  }

  ghost predicate Met(rs: seq<Resource>, order: seq<nat>, h: seq<Outcome>, k: nat, d: string)
    requires Indices(rs, order) && k <= |h| <= |order|
  {
    exists j: nat :: CameAt(rs, order, k, d, j) && Satisfying(h[j].result)
  }

  ghost predicate InDoubt(rs: seq<Resource>, order: seq<nat>, h: seq<Outcome>, k: nat, d: string)
    requires Indices(rs, order) && k <= |h| <= |order|
  {
    exists j: nat :: CameAt(rs, order, k, d, j) && Doubtful(h[j].result)
  }

  /** The dependency at `i` is the first that is not met. */
  ghost predicate FirstUnmet(rs: seq<Resource>, order: seq<nat>, h: seq<Outcome>, k: nat, deps: seq<string>, i: nat)
    requires Indices(rs, order) && k <= |h| <= |order|
  {
    && i < |deps| && !Met(rs, order, h, k, deps[i])
    && forall x :: 0 <= x < i ==> Met(rs, order, h, k, deps[x])
  }

  // --------------------------------------------------------------------- the gate

  lemma {:induction false} LastIsOnly(out: seq<ResourceResult>, id: string, j: nat)
    requires j < |out| && out[j].id == id && forall i :: 0 <= i < |out| && out[i].id == id ==> i == j
    ensures LastResult(out, id) == Some(out[j])
  {
    if out[|out| - 1].id != id { LastIsOnly(out[..|out| - 1], id, j); }
  }

  /** The result recorded under an id is that of the one resource with it. */
  lemma RecordedAt(rs: seq<Resource>, mode: Mode, w: World, order: seq<nat>, k: nat, d: string)
    requires Indices(rs, order) && History(rs, mode, w, order).Some? && k <= |order|
    requires UniqueIds(rs) && Distinct(order)
    ensures var h := History(rs, mode, w, order).value;
      && (forall j: nat :: CameAt(rs, order, k, d, j) ==> LastResult(ResultsOf(h[..k]), d) == Some(h[j].result))
      && (LastResult(ResultsOf(h[..k]), d).Some? ==> exists j: nat :: CameAt(rs, order, k, d, j))
  {
    hide History, LastResult;
    var h := History(rs, mode, w, order).value;
    var out := ResultsOf(h[..k]);
    forall j | 0 <= j < k
      ensures out[j].id == rs[order[j]].id && out[j] == h[j].result
    {
      OneResultEach(rs, mode, w, order, j);
    }
    forall j: nat | CameAt(rs, order, k, d, j)
      ensures LastResult(out, d) == Some(h[j].result)
    {
      forall i | 0 <= i < |out| && out[i].id == d
        ensures i == j
      {
        assert order[i] == order[j];
      }
      LastIsOnly(out, d, j);
    }
    if LastResult(out, d).Some? {
      var r := LastResult(out, d).value;
      var j: nat :| j < k && out[j] == r;
      assert CameAt(rs, order, k, d, j);
    }
  }

  /** Whether the gate opens for a dependency, and if not, whether in doubt. */
  lemma DependencyMeans(rs: seq<Resource>, mode: Mode, w: World, order: seq<nat>, k: nat, d: string)
    requires Indices(rs, order) && History(rs, mode, w, order).Some? && k <= |order|
    requires UniqueIds(rs) && Distinct(order)
    ensures var h := History(rs, mode, w, order).value;
      var last := LastResult(ResultsOf(h[..k]), d);
      && (Met(rs, order, h, k, d) <==> last.Some? && last.value.SatisfiesDependency())
      && (InDoubt(rs, order, h, k, d) <==> last.Some? && last.value.IsUnknownDependency())
  {
    hide History, LastResult, ResultsOf, CameAt;
    RecordedAt(rs, mode, w, order, k, d);
  }

  /** The gate in terms of the resources before: open when all are met, and else as the first that is not. */
  lemma {:induction false} GateMeans(
      rs: seq<Resource>, mode: Mode, w: World, order: seq<nat>, k: nat, deps: seq<string>, i: nat)
    requires Indices(rs, order) && History(rs, mode, w, order).Some? && k <= |order|
    requires UniqueIds(rs) && Distinct(order) && i <= |deps|
    requires forall x :: 0 <= x < i ==> Met(rs, order, History(rs, mode, w, order).value, k, deps[x])
    ensures var h := History(rs, mode, w, order).value;
      var g := DependencyGate(ResultsOf(h[..k]), deps[i..]);
      && (g == Open <==> forall x :: 0 <= x < |deps| ==> Met(rs, order, h, k, deps[x]))
      && (g == BlockedUnknown <==>
            exists x: nat :: FirstUnmet(rs, order, h, k, deps, x) && InDoubt(rs, order, h, k, deps[x]))
      && (g == Blocked <==>
            exists x: nat :: FirstUnmet(rs, order, h, k, deps, x) && !InDoubt(rs, order, h, k, deps[x]))
    decreases |deps| - i
  {
    hide History, LastResult, Met, InDoubt, ResultsOf;
    var h := History(rs, mode, w, order).value;
    if i < |deps| {
      assert deps[i..][1..] == deps[i + 1..];
      DependencyMeans(rs, mode, w, order, k, deps[i]);
      if Met(rs, order, h, k, deps[i]) {
        GateMeans(rs, mode, w, order, k, deps, i + 1);
      } else {
        assert FirstUnmet(rs, order, h, k, deps, i);
      }
    }
  }

  // ------------------------------------------------------------------- the results

  lemma StoppedMeans(h: seq<Outcome>, k: nat)
    requires k <= |h|
    ensures HasStopped(ResultsOf(h[..k])) <==> StoppedBefore(h, k)
  {
    var out := ResultsOf(h[..k]);
    if j :| 0 <= j < k && Broken(h[j].result) {
      assert out[j] in out && out[j].Stops();
    }
  }

  /** Why resource `order[k]` was run, or what its result says it was not run for. */
  lemma OutcomeExact(rs: seq<Resource>, mode: Mode, w: World, order: seq<nat>, k: nat)
    requires Indices(rs, order) && History(rs, mode, w, order).Some? && k < |order|
    requires UniqueIds(rs) && Distinct(order) && Sane(w)
    ensures var h := History(rs, mode, w, order).value;
      var o, deps := h[k], rs[order[k]].dependsOn;
      var c, due := w.when(order[k], ResultsOf(h[..k])), !StoppedBefore(h, k);
      && (o.result.disposition == BlockedByFailFast <==> !due)
      && (o.result.disposition == SkippedByCondition <==> due && c == Holds(false))
      && (o.dispatched <==>
            due && c == Holds(true) && forall x :: 0 <= x < |deps| ==> Met(rs, order, h, k, deps[x]))
      && (o.result.disposition == BlockedByDependency <==>
            && due && c == Holds(true)
            && exists x: nat :: FirstUnmet(rs, order, h, k, deps, x) && !InDoubt(rs, order, h, k, deps[x]))
      && (!o.dispatched && o.result.unknown <==>
            && due
            && ((mode == Plan && c == Undecided)
                || (c == Holds(true)
                    && exists x: nat :: FirstUnmet(rs, order, h, k, deps, x) && InDoubt(rs, order, h, k, deps[x]))))
      && (!o.dispatched && o.result.execution == Failed <==> due && mode == Apply && c in {CondError, Undecided})
      && (mode == Plan && due ==> c != CondError)
      && (!o.dispatched ==>
            && o.result.execution in {NotRun, Failed} && o.result.change == Unchanged
            && o.result.verification == NotPerformed && o.guard.None? && o.register.None?)
  {
    hide History, DependencyGate, HasStopped, Met, InDoubt, FirstUnmet, StoppedBefore;
    var h := History(rs, mode, w, order).value;
    HistoryAt(rs, mode, w, order, k);
    StoppedMeans(h, k);
    var deps := rs[order[k]].dependsOn;
    assert deps[0..] == deps;
    GateMeans(rs, mode, w, order, k, deps, 0);
  }

  /** What a dispatched resource's result says: its own, or of an error how it ended and what it may have done. */
  lemma DispatchTold(rs: seq<Resource>, mode: Mode, w: World, order: seq<nat>, k: nat)
    requires Indices(rs, order) && History(rs, mode, w, order).Some? && k < |order|
    requires History(rs, mode, w, order).value[k].dispatched
    ensures var h := History(rs, mode, w, order).value;
      var o, d := h[k], w.dispatch(order[k], ResultsOf(h[..k]));
      && o.result.id == rs[order[k]].id
      && (d.Done? ==>
            && o.result == d.result.(id := o.result.id) && o.register == d.register
            && (mode == Plan ==> o.guard == d.guard) && (mode == Apply ==> o.guard.None?))
      && (d.Raised? ==>
            && mode == Apply && o.result.disposition == Normal && !o.result.unknown && o.register.None?
            && (o.result.execution == Indeterminate <==> d.indeterminate)
            && (o.result.execution == Failed <==> !d.indeterminate)
            && (o.result.change == Unchanged <==> d.mutation == NoMutation && !d.indeterminate)
            && (o.result.change == Changed <==> d.mutation == Mutated)
            && (o.result.verification == VerifyUnknown <==> d.indeterminate)
            && (o.result.verification == NotPerformed <==> !d.indeterminate))
  {
    hide History, DependencyGate, HasStopped;
    HistoryAt(rs, mode, w, order, k);
  }

  /** Resource `i` is reached in plan, and its condition or its dispatch is an error. */
  ghost predicate PlanErrs(rs: seq<Resource>, w: World, i: nat, out: seq<ResourceResult>)
    requires i < |rs|
  {
    && (forall r :: r in out ==> !Broken(r))
    && (w.when(i, out) == CondError
        || (w.when(i, out) == Holds(true) && DependencyGate(out, rs[i].dependsOn) == Open && w.dispatch(i, out).Raised?))
  }

  ghost predicate PlanErrsAt(rs: seq<Resource>, w: World, order: seq<nat>, k: nat)
    requires Indices(rs, order)
  {
    && k < |order| && History(rs, Plan, w, order[..k]).Some?
    && PlanErrs(rs, w, order[k], ResultsOf(History(rs, Plan, w, order[..k]).value))
  }

  lemma DecideErrs(rs: seq<Resource>, w: World, i: nat, out: seq<ResourceResult>)
    requires i < |rs|
    ensures Decide(rs, Plan, w, i, out).None? <==> PlanErrs(rs, w, i, out)
  {
    hide DependencyGate;
    assert (forall r :: r in out ==> !Broken(r)) <==> !HasStopped(out);
  }

  /** A plan ends in an error exactly when it comes to a resource whose condition or dispatch is one. */
  lemma {:induction false} PlanErrsExact(rs: seq<Resource>, w: World, order: seq<nat>)
    requires Indices(rs, order)
    ensures History(rs, Plan, w, order).None? <==> exists k: nat :: PlanErrsAt(rs, w, order, k)
  {
    hide Decide, PlanErrs;
    if order != [] {
      var n := |order| - 1;
      PlanErrsExact(rs, w, order[..n]);
      forall k: nat | k < n
        ensures PlanErrsAt(rs, w, order[..n], k) <==> PlanErrsAt(rs, w, order, k)
      {
        assert order[..n][..k] == order[..k] && order[..n][k] == order[k];
      }
      if History(rs, Plan, w, order[..n]).Some? {
        DecideErrs(rs, w, order[n], ResultsOf(History(rs, Plan, w, order[..n]).value));
        assert History(rs, Plan, w, order).None? <==> PlanErrsAt(rs, w, order, n);
      }
    }
  }

  // -------------------------------------------------------------- notifications

  /** A handler is queued exactly by a resource that was run, changed something for certain, succeeded, and
      was not found otherwise by its verification. */
  lemma NotifiedExact(rs: seq<Resource>, order: seq<nat>, h: seq<Outcome>, x: string)
    requires Indices(rs, order) && |h| <= |order|
    ensures x in Notified(rs, order, h) <==> exists k :: 0 <= k < |h| && ChangedFor(rs, order, h, k, x)
  {
    hide Notified;
    forall k | 0 <= k < |h|
      ensures Notifies(rs, order, h, k, x) <==> ChangedFor(rs, order, h, k, x)
    {
    }
  }

  ghost predicate ChangedFor(rs: seq<Resource>, order: seq<nat>, h: seq<Outcome>, k: nat, x: string)
    requires Indices(rs, order) && k < |h| <= |order|
  {
    var r := h[k].result;
    && h[k].dispatched && r.execution == Succeeded && r.change == Changed
    && r.verification in {NotApplicable, NotPerformed, Verified} && x in rs[order[k]].notify
  }
}
