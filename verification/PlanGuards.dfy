/** Whether a guard that plan found satisfied still is when apply gets there: what plan records
    along the way is enough to know. */
module PlanGuards {
  import opened Wrappers
  import opened Evaluation
  import opened Printing
  import opened Model
  import opened Ordering
  import opened Paths
  import opened Results
  import opened Effects
  import opened Engine
  import opened CommandRun
  import opened PlanApply
  import Capture

  // ------------------------------------------------------- what apply does to the target

  /** The trees are alike at a path and all its ancestors. */
  ghost predicate AlikeUpTo(t: Tree, t': Tree, q: seq<string>) { forall x :: x <= q ==> Same(t, t', x) }

  /** What apply does at position `j` stays within what plan takes the resource to do: nothing when it
      is not dispatched, has its guard satisfied, is an account or role, or was observed by plan to be
      as declared; a path kind changes its path and what is below. Executed commands, packages and
      the rest may change anything. */
  ghost predicate Bounded(r: TwoRuns, states: seq<Tree>, j: nat)
    requires r.Valid() && j < |r.order| && |states| == |r.order| + 1
  {
    var res, p, o := r.rc.rs[r.order[j]], r.Planned()[j], r.Applied()[j];
    && (!o.dispatched || o.result.disposition == GuardSatisfied ==> states[j + 1] == states[j])
    && (PathKind(res) ==> ChangesAt(states[j], states[j + 1], Components(res.path.value)))
    && (!PathKind(res) && res.kind in {"group", "postgresql_role"} ==> states[j + 1] == states[j])
    && (res.kind != "command" && p.dispatched && p.result.change == Unchanged && !p.result.unknown ==>
          states[j + 1] == states[j])
  }

  /** Plan looks at a guard in the tree `now`, apply in the tree it has reached. What is seen there
      depends on the path and its ancestors, or on the whole tree when links lead to it. */
  ghost predicate Looked(r: TwoRuns, now: Tree, states: seq<Tree>, looks: (nat, Tree) -> bool, j: nat)
    requires r.Valid() && j < |r.order| && |states| == |r.order| + 1
  {
    && (r.Planned()[j].guard.Some? ==>
          var g := r.Planned()[j].guard.value;
          && ValidPath(g.path) && looks(j, now)
          && (!g.aliased ==> forall t :: AlikeUpTo(now, t, Components(g.path)) ==> looks(j, t)))
    && (r.Applied()[j].dispatched && r.applyMeets(j).Runs? ==> !looks(j, states[j]))
  }

  /** Between plan and the first resource only the recorded start changes happen. */
  ghost predicate StartOnly(start: Effects.Planned, now: Tree, first: Tree) {
    forall x :: (forall c :: c in start.paths ==> !(Components(c.path) <= x)) ==> Same(now, first, x)
  }

  /** A plan that reports a success, and the trees apply goes through from the one plan saw. */
  ghost predicate Target(r: TwoRuns, start: Effects.Planned, now: Tree, states: seq<Tree>, looks: (nat, Tree) -> bool) {
    && r.Valid() && Topological(Dependencies(r.rc.rs), r.order)
    && |states| == |r.order| + 1 && StartOnly(start, now, states[0])
    && (forall c :: c in start.paths ==> ValidPath(c.path))
    && (forall i :: 0 <= i < |r.rc.rs| && r.rc.rs[i].path.Some? ==> ValidPath(r.rc.rs[i].path.value))
    && (forall j :: 0 <= j < |r.order| ==> Bounded(r, states, j) && Looked(r, now, states, looks, j) && PlanTells(r, j))
  }

  /** Plan stops nowhere, and what it dispatches satisfies dependents or is unknown. */
  ghost predicate PlanTells(r: TwoRuns, j: nat)
    requires r.Valid() && j < |r.order|
  {
    var p := r.Planned()[j];
    && !p.result.Stops()
    && (p.dispatched ==> p.result.SatisfiesDependency() || p.result.IsUnknownDependency())
  }

  /** No command among the first `n` positions flipped, with or without a register. */
  ghost predicate NoneFlipped(r: TwoRuns, n: nat)
    requires r.Valid() && n <= |r.order|
  {
    forall j :: 0 <= j < n ==> !r.Flipped(j)
  }

  // --------------------------------------------------- what plan does not run, apply does not

  lemma {:induction false} GateBlocked(out: seq<ResourceResult>, deps: seq<string>) returns (d: string)
    requires DependencyGate(out, deps) == Gate.Blocked
    ensures d in deps
    ensures LastResult(out, d).Some? ==>
      !LastResult(out, d).value.SatisfiesDependency() && !LastResult(out, d).value.IsUnknownDependency()
  {
    var l := LastResult(out, deps[0]);
    if l.Some? && l.value.SatisfiesDependency() {
      d := GateBlocked(out, deps[1..]);
    } else {
      d := deps[0];
    }
  }

  /** The last result under a resource's id is the one at its position. */
  lemma ResultAt(rs: seq<Resource>, mode: Mode, w: World, order: seq<nat>, k: nat, m: nat)
    requires Indices(rs, order) && History(rs, mode, w, order).Some? && m < k < |order| && UniqueIds(rs) && Distinct(order)
    ensures var h := History(rs, mode, w, order).value;
      LastResult(ResultsOf(h[..k]), rs[order[m]].id) == Some(h[m].result)
  {
    hide History;
    var h := History(rs, mode, w, order).value;
    var out, id := ResultsOf(h[..k]), rs[order[m]].id;
    OneResultEach(rs, mode, w, order, m);
    assert out[m] in out;
    var x := LastResult(out, id).value;
    var m' :| 0 <= m' < k && out[m'] == x;
    OneResultEach(rs, mode, w, order, m');
    assert order[m'] == order[m];
  }

  /** What plan skips or blocks for certain, apply does not dispatch, as long as nothing flipped before. */
  lemma {:induction false} NotRunStays(
      r: TwoRuns, start: Effects.Planned, now: Tree, states: seq<Tree>, looks: (nat, Tree) -> bool, j: nat)
    requires Target(r, start, now, states, looks) && j < |r.order| && NoneFlipped(r, j)
    requires !r.Planned()[j].dispatched && !r.Planned()[j].result.unknown
    ensures !r.Applied()[j].dispatched
    decreases j
  {
    hide History, Of, Topological, Dependencies, Bounded, Looked, StartOnly, WhenOf, RegistersOf, TwoRuns.Flipped;
    var rs, order := r.rc.rs, r.order;
    HistoryAt(rs, Plan, r.plan, order, j);
    HistoryAt(rs, Apply, r.apply, order, j);
    NothingStopped(r, j);
    if r.Applied()[j].dispatched {
      DispatchGate(rs, Apply, r.apply, order, j);
      WhensKept(r, j);
      var d := GateBlocked(ResultsOf(r.Planned()[..j]), rs[order[j]].dependsOn);
      var i := IndexOf(rs, d).value;
      assert i in Dependencies(rs)[order[j]];
      var m: nat :| RanBefore(r.Applied(), r.apply, order, j, m, i);
      ResultAt(rs, Plan, r.plan, order, j, m);
      assert PlanTells(r, m);
      NotRunStays(r, start, now, states, looks, m);
      assert false;
    }
  }

  lemma NothingStopped(r: TwoRuns, j: nat)
    requires r.Valid() && j < |r.order| && forall i :: 0 <= i < j ==> PlanTells(r, i)
    ensures !HasStopped(ResultsOf(r.Planned()[..j]))
  {
    hide History, Of;
    var out := ResultsOf(r.Planned()[..j]);
    forall x | x in out
      ensures !x.Stops()
    {
      var i: nat :| i < j && out[i] == x;
      assert PlanTells(r, i);
    }
  }

  lemma WhensKept(r: TwoRuns, j: nat)
    requires r.Valid() && j < |r.order| && NoneFlipped(r, j)
    ensures Kept(r.plan.when(r.order[j], ResultsOf(r.Planned()[..j])), r.apply.when(r.order[j], ResultsOf(r.Applied()[..j])))
  {
    hide History, WhenOf, RegistersOf, TwoRuns.Flipped;
    assert r.Steady(j);
    BothAt(r, j);
    WhenKept(r, j, j, j);
  }

  // ------------------------------------------------------------------- steps and guards

  /** What plan dispatched: a command met its guard, or is unknown; what apply dispatched and went on from
      stored a register if it is a command. */
  lemma CommandsAt(r: TwoRuns, j: nat)
    requires r.Valid() && j < |r.order|
    ensures r.Planned()[j].guard.Some? ==>
      r.rc.rs[r.order[j]].kind == "command" && r.planMeets(j) == Satisfied(r.Planned()[j].guard.value)
    ensures r.Planned()[j].dispatched && r.rc.rs[r.order[j]].kind == "command" && r.Planned()[j].guard.None? ==>
      r.Planned()[j].result.unknown
    ensures r.Applied()[j].dispatched && r.rc.rs[r.order[j]].kind == "command" && !r.Applied()[j].result.Stops() ==>
      r.Applied()[j].register.Some?
    ensures r.Flipped(j) ==> r.Applied()[j].dispatched && r.applyMeets(j).Runs?
  {
    hide History, Of, GuardRegister, RegisterOf, RegistersOf;
    BothAt(r, j);
    HistoryAt(r.rc.rs, Plan, r.plan, r.order, j);
    HistoryAt(r.rc.rs, Apply, r.apply, r.order, j);
  }

  /** What is dispatched in apply has nothing stopped before it. */
  lemma WentOn(r: TwoRuns, i: nat, j: nat)
    requires r.Valid() && i < j < |r.order| && r.Applied()[j].dispatched
    ensures !r.Applied()[i].result.Stops()
  {
    hide History, Of, WhenOf;
    HistoryAt(r.rc.rs, Apply, r.apply, r.order, j);
    var before := ResultsOf(r.Applied()[..j]);
    assert before[i] in before;
  }

  /** Plan's report of no change is kept by apply. */
  lemma UnchangedStays(
      r: TwoRuns, start: Effects.Planned, now: Tree, states: seq<Tree>, looks: (nat, Tree) -> bool, i: nat, j: nat)
    requires Target(r, start, now, states, looks) && i < j < |r.order| && NoneFlipped(r, j) && r.Applied()[j].dispatched
    requires r.Planned()[i].result.change == Unchanged && !r.Planned()[i].result.unknown
    ensures states[i + 1] == states[i]
  {
    hide History, Of, Topological, Dependencies, Looked, StartOnly, TwoRuns.Flipped, ChangesAt;
    assert Bounded(r, states, i);
    if r.Applied()[i].dispatched {
      if !r.Planned()[i].dispatched {
        NotRunStays(r, start, now, states, looks, i);
        assert false;
      }
      if r.rc.rs[r.order[i]].kind == "command" {
        CommandsAt(r, i);
        WentOn(r, i, j);
        assert !r.Flipped(i);
        NotFlipped(r, i);
      }
    }
  }

  lemma NotFlipped(r: TwoRuns, i: nat)
    requires r.Valid() && i < |r.order| && !r.Flipped(i) && r.Planned()[i].guard.Some? && r.Applied()[i].register.Some?
    ensures r.Applied()[i].result.disposition == GuardSatisfied
  {
  }

  /** What plan reports as leaving a path alone leaves it and its ancestors alone in apply. */
  lemma QuietStep(
      r: TwoRuns, start: Effects.Planned, now: Tree, states: seq<Tree>, looks: (nat, Tree) -> bool, i: nat, j: nat,
      path: string)
    requires Target(r, start, now, states, looks) && i < j < |r.order| && NoneFlipped(r, j) && r.Applied()[j].dispatched
    requires ValidPath(path) && Quiet(r.rc.rs[r.order[i]], r.Planned()[i].result, path)
    ensures AlikeUpTo(states[i], states[i + 1], Components(path))
    ensures !AddsPath(r.rc.rs[r.order[i]], r.Planned()[i].result) ==> states[i + 1] == states[i]
  {
    hide History, Of, Topological, Dependencies, Looked, StartOnly, NoneFlipped, ValidPath, Components;
    var res, p := r.rc.rs[r.order[i]], r.Planned()[i].result;
    assert Bounded(r, states, i);
    if p.change == Unchanged && !p.unknown {
      UnchangedStays(r, start, now, states, looks, i, j);
    } else if PathKind(res) {
      PrefixTest(path, res.path.value);
    }
  }

  lemma AlikeFurther(a: Tree, b: Tree, c: Tree, q: seq<string>)
    requires AlikeUpTo(a, b, q) && AlikeUpTo(b, c, q)
    ensures AlikeUpTo(a, c, q)
  {
    forall x | x <= q
      ensures Same(a, c, x)
    {
      assert Same(a, b, x) && Same(b, c, x);
    }
  }

  /** Up to a dispatched position nothing happened to a path that plan reports as left alone. */
  lemma {:induction false} QuietRun(
      r: TwoRuns, start: Effects.Planned, now: Tree, states: seq<Tree>, looks: (nat, Tree) -> bool, i: nat, j: nat,
      path: string)
    requires Target(r, start, now, states, looks) && i <= j < |r.order| && NoneFlipped(r, j) && r.Applied()[j].dispatched
    requires ValidPath(path) && QuietUpTo(r.rc.rs, r.order, r.Planned(), j, path)
    ensures AlikeUpTo(states[0], states[i], Components(path))
    ensures (forall k :: 0 <= k < i ==> !AddsPath(r.rc.rs[r.order[k]], r.Planned()[k].result)) ==> states[i] == states[0]
  {
    hide History, Of, Topological, Dependencies, Bounded, Looked, StartOnly, NoneFlipped, ValidPath, Components, Quiet,
      AddsPath, TwoRuns.Valid;
    if i > 0 {
      QuietRun(r, start, now, states, looks, i - 1, j, path);
      QuietStep(r, start, now, states, looks, i - 1, j, path);
      AlikeFurther(states[0], states[i - 1], states[i], Components(path));
    }
  }

  /** The tree apply has reached, as far as a guard can see it, is the one plan saw. */
  lemma SeenAlike(
      r: TwoRuns, start: Effects.Planned, now: Tree, states: seq<Tree>, looks: (nat, Tree) -> bool, j: nat)
    requires Target(r, start, now, states, looks) && j < |r.order| && NoneFlipped(r, j)
    requires r.Applied()[j].dispatched && r.Planned()[j].guard.Some?
    requires ValidPath(r.Planned()[j].guard.value.path) && GuardHolds(r.rc.rs, start, r.order, r.Planned(), j)
    ensures AlikeUpTo(now, states[j], Components(r.Planned()[j].guard.value.path))
    ensures r.Planned()[j].guard.value.aliased ==> states[j] == now
  {
    hide History, Of, Topological, Dependencies, Bounded, Looked, NoneFlipped, ValidPath, Components, Quiet, AddsPath;
    var g := r.Planned()[j].guard.value;
    QuietRun(r, start, now, states, looks, j, j, g.path);
    StartAlike(start, now, states[0], g.path);
    AlikeFurther(now, states[0], states[j], Components(g.path));
  }

  lemma StartAlike(start: Effects.Planned, now: Tree, first: Tree, path: string)
    requires StartOnly(start, now, first) && ValidPath(path) && start.Affecting(path).None?
    requires forall c :: c in start.paths ==> ValidPath(c.path)
    ensures AlikeUpTo(now, first, Components(path))
    ensures start.paths == [] ==> first == now
  {
    hide ValidPath, Components;
    forall c | c in start.paths
      ensures !(Components(c.path) <= Components(path))
    {
      PrefixTest(path, c.path);
      assert !Touches(c.path, path, false);
    }
    if start.paths == [] {
      forall x
        ensures (x in now <==> x in first) && (x in now ==> now[x] == first[x])
      {
        assert Same(now, first, x);
      }
      assert first == now;
    }
  }

  /** No guard that plan's own record clears flips: whatever the commands before it do, apply finds it
      as plan did. */
  lemma {:induction false} GuardsStay(
      r: TwoRuns, start: Effects.Planned, now: Tree, states: seq<Tree>, looks: (nat, Tree) -> bool, n: nat)
    requires Target(r, start, now, states, looks) && n <= |r.order|
    requires forall k :: 0 <= k < n ==> GuardHolds(r.rc.rs, start, r.order, r.Planned(), k)
    ensures NoneFlipped(r, n)
  {
    hide History, Of, Topological, Dependencies, Bounded, StartOnly, GuardHolds, ValidPath, Components, AlikeUpTo;
    if n > 0 {
      var j := n - 1;
      GuardsStay(r, start, now, states, looks, j);
      if r.Flipped(j) {
        CommandsAt(r, j);
        assert Looked(r, now, states, looks, j);
        SeenAlike(r, start, now, states, looks, j);
        assert false;
      }
    }
  }

  /** As long as plan's record still gives any path as unaffected, nothing has flipped, and so every
      decision of plan before that is kept. */
  lemma RecordForesees(
      r: TwoRuns, start: Effects.Planned, now: Tree, states: seq<Tree>, looks: (nat, Tree) -> bool, n: nat, path: string)
    requires Target(r, start, now, states, looks) && n <= |r.order|
    requires Reached(r.rc.rs, Plan, start, r.order, r.Planned()[..n]).Affecting(path).None?
    ensures NoneFlipped(r, n) && r.Steady(n)
  {
    hide History, Of, Topological, Dependencies, Bounded, Looked, StartOnly, GuardHolds, Reached, QuietUpTo, TwoRuns.Flipped;
    PlannedExact(r.rc.rs, start, r.order, r.Planned()[..n], path);
    forall k | 0 <= k < n
      ensures GuardHolds(r.rc.rs, start, r.order, r.Planned(), k)
    {
      GuardHoldsPrefix(r.rc.rs, start, r.order, r.Planned(), n, k);
    }
    GuardsStay(r, start, now, states, looks, n);
  }

  // ------------------------------------------------------------------------ a flip

  /** Decisions position by position make a history. */
  lemma {:induction false} HistoryOf(rs: seq<Resource>, mode: Mode, w: World, order: seq<nat>, h: seq<Outcome>)
    requires Indices(rs, order) && |h| == |order|
    requires forall k :: 0 <= k < |h| ==> Decide(rs, mode, w, order[k], ResultsOf(h[..k])) == Some(h[k])
    ensures History(rs, mode, w, order) == Some(h)
    decreases |h|
  {
    hide Decide;
    if h != [] {
      var n := |h| - 1;
      forall k | 0 <= k < n
        ensures Decide(rs, mode, w, order[..n][k], ResultsOf(h[..n][..k])) == Some(h[..n][k])
      {
        assert h[..n][..k] == h[..k];
      }
      HistoryOf(rs, mode, w, order[..n], h[..n]);
      assert h == h[..n] + [h[n]];
    }
  }

  /** `f` is a file `/x` to be removed, `c` a command that creates `/x` and registers `r`, `d` a command
      for when `c` was not executed. */
  function FlipRecipe(): Recipe {
    Recipe(
      [Resource("f", "file", Some("/x"), [], [], None, false),
       Resource("c", "command", None, [], [], Some("r"), false),
       Resource("d", "command", None, ["c"], [], None, false)],
      [None, None, Some(NotExecuted("r"))],
      seq(3, _ => Scope(Some(map[]), Some(map[]), None, None, None, None)))
  }

  function Ran(): Met {
    Runs(Capture.Output(Capture.Exited(0), Capture.Captured([], false), Capture.Captured([], false)), {0}, Says(true), false)
  }

  /** In plan `c` meets its guard satisfied, in apply it runs, for `/x` is gone by then. */
  function FlipMeets(mode: Mode): nat -> Met {
    (k: nat) => if mode == Plan && k == 1 then Satisfied(Guard("/x", false)) else Ran()
  }

  /** Plan changes nothing, so it verifies nothing. */
  function FlipVerification(mode: Mode): Verification { if mode == Plan then NotPerformed else Verified }

  function FlipWorld(mode: Mode, decode: Capture.Decoder): World {
    World(
      (i, out) => Holds(mode == Plan || i != 2),
      (i, out) =>
        if i == 0 then Done(ResourceResult("f", Succeeded, Changed, FlipVerification(mode), Normal, false), None, None)
        else if i == 1 then RunCommand(mode, FlipRecipe().rs[1], FlipMeets(mode)(1), decode)
        else if i == 2 then RunCommand(mode, FlipRecipe().rs[2], FlipMeets(mode)(2), decode)
        else Raised(false, NoMutation))
  }

  function FlipOutcomes(mode: Mode, decode: Capture.Decoder): seq<Outcome> {
    var ran := EvalVal(Some(RegisterOf(Ran().o, {0}, Says(true), decode)), false);
    var f := Outcome(ResourceResult("f", Succeeded, Changed, FlipVerification(mode), Normal, false), true, None, None);
    if mode == Plan then
      [f,
       Outcome(ResourceResult("c", Succeeded, Unchanged, NotApplicable, GuardSatisfied, false), true,
               Some(Guard("/x", false)), Some(EvalVal(Some(GuardRegister(decode)), false))),
       Outcome(ResourceResult("d", NotRun, Unchanged, NotApplicable, Normal, true), true, None, Some(EvalVal(None, false)))]
    else
      [f,
       Outcome(CommandResult("c", Ran().o, {0}, Says(true)), true, None, Some(ran)),
       Told(NotRunResult("d", SkippedByCondition, false), false)]
  }

  lemma FlipStep(mode: Mode, decode: Capture.Decoder, i: nat, out: seq<ResourceResult>)
    requires i < 3 && !HasStopped(out) && (i == 2 ==> DependencyGate(out, ["c"]) == Open)
    ensures Decide(FlipRecipe().rs, mode, FlipWorld(mode, decode), i, out) == Some(FlipOutcomes(mode, decode)[i])
  {
    hide RegisterOf, GuardRegister, HasStopped;
    var w := FlipWorld(mode, decode);
    assert FlipMeets(mode)(1) == if mode == Plan then Satisfied(Guard("/x", false)) else Ran();
    assert FlipMeets(mode)(2) == Ran();
    assert DependencyGate(out, []) == Open;
    if i == 0 {
    } else if i == 1 {
      assert w.dispatch(1, out) == RunCommand(mode, FlipRecipe().rs[1], FlipMeets(mode)(1), decode);
    } else {
      assert FlipRecipe().rs[2].dependsOn == ["c"];
      assert w.dispatch(2, out) == RunCommand(mode, FlipRecipe().rs[2], FlipMeets(mode)(2), decode);
    }
  }

  lemma FlipHistory(mode: Mode, decode: Capture.Decoder)
    ensures History(FlipRecipe().rs, mode, FlipWorld(mode, decode), [0, 1, 2]) == Some(FlipOutcomes(mode, decode))
  {
    hide History, RegisterOf, GuardRegister, Decide, FlipWorld, FlipRecipe;
    var h := FlipOutcomes(mode, decode);
    assert |h| == 3 && h[..1] == [h[0]] && h[..2] == [h[0], h[1]];
    FlipStep(mode, decode, 0, ResultsOf(h[..0]));
    FlipStep(mode, decode, 1, ResultsOf(h[..1]));
    var out := ResultsOf(h[..2]);
    assert out == [h[0].result, h[1].result];
    FlipGate(out);
    FlipStep(mode, decode, 2, out);
    FlipOrder();
    forall k | 0 <= k < 3
      ensures Decide(FlipRecipe().rs, mode, FlipWorld(mode, decode), [0, 1, 2][k], ResultsOf(h[..k])) == Some(h[k])
    {
      assert k == 0 || k == 1 || k == 2;
    }
    HistoryOf(FlipRecipe().rs, mode, FlipWorld(mode, decode), [0, 1, 2], h);
  }

  lemma FlipGate(out: seq<ResourceResult>)
    requires |out| == 2 && out[1].id == "c" && out[1].SatisfiesDependency()
    ensures DependencyGate(out, ["c"]) == Open
  {
    assert LastResult(out, "c") == Some(out[1]);
    assert ["c"][1..] == [];
  }

  lemma FlipOrder()
    ensures Indices(FlipRecipe().rs, [0, 1, 2]) && |FlipRecipe().rs| == 3
  {
  }

  function Flip(decode: Capture.Decoder, fl: Floats): TwoRuns {
    TwoRuns(FlipRecipe(), [0, 1, 2], FlipWorld(Plan, decode), FlipWorld(Apply, decode), FlipMeets(Plan), FlipMeets(Apply),
            decode, fl)
  }

  lemma FlipIds()
    ensures UniqueIds(FlipRecipe().rs)
  {
    var rs := FlipRecipe().rs;
    assert |rs| == 3 && rs[0].id == "f" && rs[1].id == "c" && rs[2].id == "d";
    hide FlipRecipe;
    assert "f"[0] != "c"[0] && "f"[0] != "d"[0] && "c"[0] != "d"[0];
    forall i, j | 0 <= i < 3 && 0 <= j < 3 && rs[i].id == rs[j].id
      ensures i == j
    {
      assert (i == 0 || i == 1 || i == 2) && (j == 0 || j == 1 || j == 2);
    }
  }

  lemma FlipRegisterNames()
    ensures UniqueRegisters(FlipRecipe().rs)
  {
    var rs := FlipRecipe().rs;
    assert |rs| == 3 && rs[0].register == None && rs[1].register == Some("r") && rs[2].register == None;
    hide FlipRecipe;
  }

  lemma FlipRecipeValid()
    ensures FlipRecipe().Valid() && Indices(FlipRecipe().rs, [0, 1, 2]) && Distinct([0, 1, 2])
  {
    hide UniqueIds, UniqueRegisters;
    FlipIds();
    FlipRegisterNames();
  }

  lemma FlipRegisters(mode: Mode, decode: Capture.Decoder)
    ensures Indices(FlipRecipe().rs, [0, 1, 2]) && |FlipOutcomes(mode, decode)| == 3
    ensures
      var stored := if mode == Plan then GuardRegister(decode) else RegisterOf(Ran().o, {0}, Says(true), decode);
      RegistersOf(FlipRecipe().rs, [0, 1, 2], FlipOutcomes(mode, decode)[..2]) == map["r" := EvalVal(Some(stored), false)]
  {
    hide GuardRegister, RegisterOf;
    var rs, h := FlipRecipe().rs, FlipOutcomes(mode, decode);
    assert h[..2][..1] == h[..1] && h[..1][..0] == [];
    assert RegistersOf(rs, [0, 1, 2], []) == map[];
    assert RegistersOf(rs, [0, 1, 2], h[..1]) == map[];
  }

  /** The recipe's world, whatever the mode, evaluates `d`'s condition over `c`'s register. */
  lemma FlipOf(mode: Mode, decode: Capture.Decoder, fl: Floats)
    requires FlipRecipe().Valid() && Indices(FlipRecipe().rs, [0, 1, 2])
    requires History(FlipRecipe().rs, mode, FlipWorld(mode, decode), [0, 1, 2]) == Some(FlipOutcomes(mode, decode))
    ensures Of(FlipRecipe(), mode, FlipWorld(mode, decode), [0, 1, 2], FlipMeets(mode), decode, fl)
  {
    hide GuardRegister, RegisterOf, RegistersOf, History, RunCommand, Condition, FlipOutcomes, NotExecuted;
    var rc, w, h := FlipRecipe(), FlipWorld(mode, decode), FlipOutcomes(mode, decode);
    var order: seq<nat> := [0, 1, 2];
    FlipRegisters(mode, decode);
    FlipCondition(mode, decode, fl, ScopeAt(rc.rs, order, h[..2], rc.own[2]));
    assert rc.rs[0].kind != "command" by { assert |"file"| != |"command"|; }
    forall k | 0 <= k < |order|
      ensures w.when(order[k], ResultsOf(h[..k])) ==
        WhenOf(rc.whens[order[k]], ScopeAt(rc.rs, order, h[..k], rc.own[order[k]]), fl)
    {
      assert k == 0 || k == 1 || k == 2;
    }
  }

  lemma FlipCondition(mode: Mode, decode: Capture.Decoder, fl: Floats, sc: Scope)
    requires sc.registers == Some(map["r" :=
      EvalVal(Some(if mode == Plan then GuardRegister(decode) else RegisterOf(Ran().o, {0}, Says(true), decode)), false)])
    ensures Condition(NotExecuted("r"), sc, fl) == Holds(mode == Plan)
  {
    hide GuardRegister, RegisterOf, Condition, NotExecuted, Get;
    RegistersDiffer(Ran().o, {0}, Says(true), decode);
    GuardIsMap(decode);
    assert Printing.IsName("r") by { RIsName(); }
    ReadExecuted("r", sc, fl, mode != Plan);
  }

  lemma RIsName()
    ensures Printing.IsName("r")
  {
  }

  /** The guard flips: plan finds `d` due, apply skips it. Plan's record has said that it may: the guard's
      path is one that `f` changes. */
  lemma FlipWitness(decode: Capture.Decoder, fl: Floats)
    ensures var r := Flip(decode, fl);
      && r.Valid() && r.Flipped(1) && !r.Steady(2)
      && r.plan.when(2, ResultsOf(r.Planned()[..2])) == Holds(true) && r.Planned()[2].dispatched
      && r.apply.when(2, ResultsOf(r.Applied()[..2])) == Holds(false)
      && r.Applied()[2].result.disposition == SkippedByCondition
      && !GuardHolds(r.rc.rs, Effects.Planned([], None), r.order, r.Planned(), 1)
  {
    hide History, RegisterOf, GuardRegister, FlipOutcomes, Of, FlipRecipe, FlipMeets, ResultsOf, GuardHolds, Distinct;
    FlipHistory(Plan, decode);
    FlipHistory(Apply, decode);
    FlipRecipeValid();
    FlipOf(Plan, decode, fl);
    FlipOf(Apply, decode, fl);
    FlipTold(decode);
  }

  lemma FlipTold(decode: Capture.Decoder)
    ensures Indices(FlipRecipe().rs, [0, 1, 2]) && |FlipOutcomes(Plan, decode)| == |FlipOutcomes(Apply, decode)| == 3
    ensures var p, a := FlipOutcomes(Plan, decode), FlipOutcomes(Apply, decode);
      && p[1].guard.Some? && p[2].dispatched
      && a[1].register.Some? && a[1].result.disposition != GuardSatisfied
      && a[2].result.disposition == SkippedByCondition
      && FlipRecipe().rs[1].register.Some?
      && !GuardHolds(FlipRecipe().rs, Effects.Planned([], None), [0, 1, 2], p, 1)
  {
    hide RegisterOf, GuardRegister;
    var p := FlipOutcomes(Plan, decode);
    assert !Quiet(FlipRecipe().rs[0], p[0].result, "/x");
  }
}
