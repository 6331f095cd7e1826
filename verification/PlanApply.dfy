/** What plan decides about a condition, and exactly when apply does not undo it. */
module PlanApply {
  import opened Wrappers
  import opened Syntax
  import opened Evaluation
  import opened Soundness
  import opened Printing
  import opened Model
  import opened Ordering
  import opened Results
  import opened Engine
  import opened Blocked
  import opened CommandRun
  import Capture
  import Meaning

  /** What the run makes of a `when` text: a text that does not parse is an error too. */
  function Condition(when: string, sc: Scope, fl: Floats): Cond {
    match ParseExpr(when)
    case Err(_) => CondError
    case Ok(e) =>
      match EvalBoolean(e, sc, fl)
      case Err(_) => CondError
      case Ok(EvalVal(None, _)) => Undecided
      case Ok(EvalVal(Some(v), _)) => if v.VBool? then Holds(v.flag) else CondError
  }

  /** A `when` holds, does not hold or is undecided as its degree of truth says, and is an error when it
      does not parse or has no degree. */
  lemma ConditionMeans(when: string, sc: Scope, fl: Floats)
    ensures var e := ParseExpr(when);
      var degree := if e.Ok? then Meaning.Degree(e.value, sc, fl) else None;
      && (Condition(when, sc, fl) == Holds(true) <==> degree == Some(1))
      && (Condition(when, sc, fl) == Holds(false) <==> degree == Some(-1))
      && (Condition(when, sc, fl) == Undecided <==> degree == Some(0))
      && (Condition(when, sc, fl) == CondError <==> degree == None)
  {
    hide ParseExpr, Eval, Meaning.Degree;
    if ParseExpr(when).Ok? {
      Meaning.DegreeExact(ParseExpr(when).value, sc, fl);
      Meaning.DegreeRange(ParseExpr(when).value, sc, fl);
    }
  }

  /** A resource without a condition is always due. */
  function WhenOf(when: Option<string>, sc: Scope, fl: Floats): Cond {
    if when.Some? then Condition(when.value, sc, fl) else Holds(true)
  }

  /** A decided condition comes out the same, or as an error. */
  predicate Kept(planned: Cond, applied: Cond) { planned.Holds? ==> applied == planned || applied == CondError }

  /** A condition decided in plan is kept once Unknowns are filled in. */
  lemma ConditionStays(when: string, planned: Scope, applied: Scope, fl: Floats)
    requires FillsScope(planned, applied)
    ensures Kept(Condition(when, planned, fl), Condition(when, applied, fl))
  {
    hide FillsScope, Eval, ParseExpr;
    if ParseExpr(when).Ok? {
      WhenStays(ParseExpr(when).value, planned, applied, fl);
    }
  }

  // ------------------------------------------------------------- a plan and an apply

  /** A recipe: its resources with their conditions, and each one's own scope (variables, facts,
      loop item), the same in plan and apply. */
  datatype Recipe = Recipe(rs: seq<Resource>, whens: seq<Option<string>>, own: seq<Scope>) {
    ghost predicate Valid() { UniqueIds(rs) && UniqueRegisters(rs) && |whens| == |own| == |rs| }
  }

  /** A world whose conditions are those of the recipe, over the registers stored before, and whose
      commands meet `meets`, position by position. */
  ghost predicate Of(
      rc: Recipe, mode: Mode, w: World, order: seq<nat>, meets: nat -> Met, decode: Capture.Decoder, fl: Floats)
    requires rc.Valid() && Indices(rc.rs, order) && History(rc.rs, mode, w, order).Some?
  {
    var h := History(rc.rs, mode, w, order).value;
    && Commands(rc.rs, mode, w, order, h, meets, decode)
    && forall k :: 0 <= k < |order| ==> WhenAt(rc, w, order, h, fl, k)
  }

  ghost predicate WhenAt(rc: Recipe, w: World, order: seq<nat>, h: seq<Outcome>, fl: Floats, k: nat)
    requires rc.Valid() && Indices(rc.rs, order) && k < |h| == |order|
  {
    var i := order[k];
    w.when(i, ResultsOf(h[..k])) == WhenOf(rc.whens[i], ScopeAt(rc.rs, order, h[..k], rc.own[i]), fl)
  }

  /** A plan and an apply of one recipe, in its order. */
  datatype TwoRuns = TwoRuns(
    rc: Recipe, order: seq<nat>, plan: World, apply: World, planMeets: nat -> Met, applyMeets: nat -> Met,
    decode: Capture.Decoder, fl: Floats)
  {
    ghost predicate Valid() {
      && rc.Valid() && Indices(rc.rs, order) && Distinct(order)
      && History(rc.rs, Plan, plan, order).Some? && History(rc.rs, Apply, apply, order).Some?
      && Of(rc, Plan, plan, order, planMeets, decode, fl) && Of(rc, Apply, apply, order, applyMeets, decode, fl)
    }

    ghost function Planned(): (h: seq<Outcome>)
      requires Valid()
      ensures |h| == |order|
    {
      History(rc.rs, Plan, plan, order).value
    }

    ghost function Applied(): (h: seq<Outcome>)
      requires Valid()
      ensures |h| == |order|
    {
      History(rc.rs, Apply, apply, order).value
    }

    /** Plan found the guard of the command at `j` satisfied, and apply executed the command. */
    ghost predicate Flipped(j: nat)
      requires Valid() && j < |order|
    {
      Planned()[j].guard.Some? && Applied()[j].register.Some? && Applied()[j].result.disposition != GuardSatisfied
    }

    /** No register of the first `n` positions comes from a flipped command. */
    ghost predicate Steady(n: nat)
      requires Valid() && n <= |order|
    {
      forall j :: 0 <= j < n && rc.rs[order[j]].register.Some? ==> !Flipped(j)
    }

    /** What plan and apply have in scope for resource `i` behind `p` positions. */
    ghost function PlanScope(p: nat, i: nat): Scope
      requires Valid() && p <= |order| && i < |rc.rs|
    {
      ScopeAt(rc.rs, order, Planned()[..p], rc.own[i])
    }

    ghost function ApplyScope(q: nat, i: nat): Scope
      requires Valid() && q <= |order| && i < |rc.rs|
    {
      ScopeAt(rc.rs, order, Applied()[..q], rc.own[i])
    }
  }

  /** Both runs at one position. */
  lemma BothAt(r: TwoRuns, j: nat)
    requires r.Valid() && j < |r.order|
    ensures CommandAt(r.rc.rs, Plan, r.plan, r.order, r.Planned(), r.planMeets, r.decode, j)
    ensures CommandAt(r.rc.rs, Apply, r.apply, r.order, r.Applied(), r.applyMeets, r.decode, j)
    ensures WhenAt(r.rc, r.plan, r.order, r.Planned(), r.fl, j) && WhenAt(r.rc, r.apply, r.order, r.Applied(), r.fl, j)
  {
    hide History, CommandAt, WhenAt;
  }

  /** What plan and apply store for one command. */
  lemma StoredAt(r: TwoRuns, j: nat)
    requires r.Valid() && j < |r.order|
    ensures r.Planned()[j].register.Some? ==>
      r.Planned()[j].register.value.val
        == if r.Planned()[j].guard.Some? then Some(GuardRegister(r.decode)) else None
    ensures r.Applied()[j].register.Some? && r.Applied()[j].result.disposition == GuardSatisfied ==>
      r.Applied()[j].register.value.val == Some(GuardRegister(r.decode))
    ensures r.Applied()[j].register.Some? && r.Applied()[j].result.disposition != GuardSatisfied ==>
      && r.applyMeets(j).Runs?
      && r.Applied()[j].register.value.val ==
         Some(RegisterOf(r.applyMeets(j).o, r.applyMeets(j).codes, r.applyMeets(j).verdict, r.decode))
    ensures r.Planned()[j].guard.Some? ==> r.Planned()[j].register.Some?
  {
    hide History, Of, GuardRegister, RegisterOf, RegistersOf;
    BothAt(r, j);
    HistoryAt(r.rc.rs, Plan, r.plan, r.order, j);
    HistoryAt(r.rc.rs, Apply, r.apply, r.order, j);
  }

  /** The register of a satisfied guard says that nothing was executed; every other says it was. */
  lemma RegistersDiffer(o: Capture.Output, codes: set<int>, verdict: Verdict, decode: Capture.Decoder)
    ensures Get(GuardRegister(decode).entries, "executed") == Some(VBool(false))
    ensures RegisterOf(o, codes, verdict, decode).VMap?
    ensures Get(RegisterOf(o, codes, verdict, decode).entries, "executed") == Some(VBool(true))
  {
  }

  /** A register both have in scope comes from the same position. */
  lemma SameProducer(r: TwoRuns, p: nat, q: nat, name: string) returns (j: nat)
    requires r.Valid() && p <= |r.order| && q <= |r.order|
    requires name in RegistersOf(r.rc.rs, r.order, r.Planned()[..p])
    requires name in RegistersOf(r.rc.rs, r.order, r.Applied()[..q])
    ensures j < p && j < q && r.rc.rs[r.order[j]].register == Some(name)
    ensures r.Planned()[j].register == Some(RegistersOf(r.rc.rs, r.order, r.Planned()[..p])[name])
    ensures r.Applied()[j].register == Some(RegistersOf(r.rc.rs, r.order, r.Applied()[..q])[name])
  {
    hide RegistersOf, History, Of;
    RegisterStored(r.rc.rs, r.order, r.Planned(), p, name);
    RegisterStored(r.rc.rs, r.order, r.Applied(), q, name);
    j :| 0 <= j < p && Stores(r.rc.rs, r.order, r.Planned(), j, name);
    var j': nat :| j' < q && Stores(r.rc.rs, r.order, r.Applied(), j', name);
    assert r.order[j] == r.order[j'];
  }

  /** What a flipped command stored: a register that is not the one plan stored. */
  lemma FlippedStores(r: TwoRuns, p: nat, q: nat, j: nat, name: string)
    requires r.Valid() && j < p <= |r.order| && j < q <= |r.order|
    requires r.rc.rs[r.order[j]].register == Some(name) && r.Flipped(j)
    ensures var a, b := RegistersOf(r.rc.rs, r.order, r.Planned()[..p]), RegistersOf(r.rc.rs, r.order, r.Applied()[..q]);
      && name in a && name in b && a[name].val.Some? && b[name].val.Some?
      && a[name].val.value.VMap? && Get(a[name].val.value.entries, "executed") == Some(VBool(false))
      && b[name].val.value.VMap? && Get(b[name].val.value.entries, "executed") == Some(VBool(true))
  {
    hide RegistersOf, History, Of, GuardRegister, RegisterOf, Get;
    StoredAt(r, j);
    assert Stores(r.rc.rs, r.order, r.Planned(), j, name) && Stores(r.rc.rs, r.order, r.Applied(), j, name);
    RegisterStored(r.rc.rs, r.order, r.Planned(), p, name);
    RegisterStored(r.rc.rs, r.order, r.Applied(), q, name);
    var met := r.applyMeets(j);
    RegistersDiffer(met.o, met.codes, met.verdict, r.decode);
    GuardIsMap(r.decode);
  }

  lemma GuardIsMap(decode: Capture.Decoder)
    ensures GuardRegister(decode).VMap?
  {
  }

  function Least(p: nat, q: nat): nat { if p < q then p else q }

  /** Apply's registers fill in plan's if and only if no command whose register both have in scope
      found its guard satisfied in plan and executed in apply. */
  lemma FilledInExact(r: TwoRuns, p: nat, q: nat)
    requires r.Valid() && p <= |r.order| && q <= |r.order|
    ensures FillsBindings(Some(RegistersOf(r.rc.rs, r.order, r.Planned()[..p])),
                          Some(RegistersOf(r.rc.rs, r.order, r.Applied()[..q])))
      <==> r.Steady(Least(p, q))
  {
    hide RegistersOf, History, Of, GuardRegister, RegisterOf, Get;
    var a, b := RegistersOf(r.rc.rs, r.order, r.Planned()[..p]), RegistersOf(r.rc.rs, r.order, r.Applied()[..q]);
    if r.Steady(Least(p, q)) {
      forall name | name in a && name in b
        ensures Fills(a[name], b[name])
      {
        var j := SameProducer(r, p, q, name);
        StoredAt(r, j);
      }
    } else {
      var j: nat :| j < Least(p, q) && r.rc.rs[r.order[j]].register.Some? && r.Flipped(j);
      var name := r.rc.rs[r.order[j]].register.value;
      FlippedStores(r, p, q, j, name);
      assert !Fills(a[name], b[name]);
    }
  }

  lemma ScopeFills(r: TwoRuns, p: nat, q: nat, i: nat)
    requires r.Valid() && p <= |r.order| && q <= |r.order| && i < |r.rc.rs| && r.Steady(Least(p, q))
    ensures FillsScope(r.PlanScope(p, i), r.ApplyScope(q, i))
  {
    hide RegistersOf, History, Of;
    FilledInExact(r, p, q);
  }

  /** Plan's decision and apply's, of any condition over the registers stored before position `k`. */
  ghost predicate AllKept(r: TwoRuns, k: nat)
    requires r.Valid() && k < |r.order|
  {
    forall when :: Kept(Condition(when, r.PlanScope(k, r.order[k]), r.fl), Condition(when, r.ApplyScope(k, r.order[k]), r.fl))
  }

  /** Every condition that could stand at a position keeps plan's decision if and only if no register
      stored before it comes from a command that found its guard satisfied in plan and executed in apply. */
  lemma DecisionsStayExact(r: TwoRuns, k: nat)
    requires r.Valid() && k < |r.order|
    requires forall i :: 0 <= i < |r.rc.rs| && r.rc.rs[i].register.Some? ==> Printing.IsName(r.rc.rs[i].register.value)
    ensures AllKept(r, k) <==> r.Steady(k)
  {
    hide History, Of, Condition, RegistersOf, TwoRuns.Flipped;
    if r.Steady(k) {
      ScopeFills(r, k, k, r.order[k]);
      forall when
        ensures Kept(Condition(when, r.PlanScope(k, r.order[k]), r.fl), Condition(when, r.ApplyScope(k, r.order[k]), r.fl))
      {
        ConditionStays(when, r.PlanScope(k, r.order[k]), r.ApplyScope(k, r.order[k]), r.fl);
      }
    } else {
      var j: nat :| j < k && r.rc.rs[r.order[j]].register.Some? && r.Flipped(j);
      var name := r.rc.rs[r.order[j]].register.value;
      NotExecutedFlips(r, k, k, j, name, r.order[k]);
      var when := NotExecuted(name);
      assert !Kept(Condition(when, r.PlanScope(k, r.order[k]), r.fl), Condition(when, r.ApplyScope(k, r.order[k]), r.fl));
    }
  }

  /** The condition that a command was not executed. */
  function NotExecuted(name: string): string { Print(Cmp(Register(name, "executed"), Eq, Bool(false))) }

  lemma ReadExecuted(name: string, sc: Scope, fl: Floats, executed: bool)
    requires Printing.IsName(name) && sc.registers.Some? && name in sc.registers.value
    requires var v := sc.registers.value[name].val;
      v.Some? && v.value.VMap? && Get(v.value.entries, "executed") == Some(VBool(executed))
    ensures Condition(NotExecuted(name), sc, fl) == Holds(!executed)
  {
    hide ParseExpr, Print, Get;
    var e := Cmp(Register(name, "executed"), Eq, Bool(false));
    assert Printable(e) by { ExecutedIsName(); }
    ParsePrint(e);
    assert |"executed"| != |"stdout"| && |"executed"| != |"stderr"|;
    var v := EvalVal(Some(VBool(executed)), sc.registers.value[name].sensitive);
    assert Eval(Register(name, "executed"), sc, fl) == Ok(v);
    assert Eval(Bool(false), sc, fl) == Ok(Known(VBool(false)));
    assert Eval(e, sc, fl) == Ok(EvalVal(Some(VBool(!executed)), v.sensitive));
  }

  lemma ExecutedIsName()
    ensures Printing.IsName("executed")
  {
  }

  /** That condition is true in plan and false in apply for a flipped command. */
  lemma NotExecutedFlips(r: TwoRuns, p: nat, q: nat, j: nat, name: string, i: nat)
    requires r.Valid() && j < p <= |r.order| && j < q <= |r.order| && i < |r.rc.rs|
    requires r.rc.rs[r.order[j]].register == Some(name) && r.Flipped(j) && Printing.IsName(name)
    ensures Condition(NotExecuted(name), r.PlanScope(p, i), r.fl) == Holds(true)
    ensures Condition(NotExecuted(name), r.ApplyScope(q, i), r.fl) == Holds(false)
  {
    hide History, Of, RegistersOf, Condition, NotExecuted, TwoRuns.Flipped;
    FlippedStores(r, p, q, j, name);
    ReadExecuted(name, r.PlanScope(p, i), r.fl, false);
    ReadExecuted(name, r.ApplyScope(q, i), r.fl, true);
  }

  /** As long as no command flipped: a resource whose condition was false in plan is never dispatched
      by apply (it is skipped, blocked by fail-fast, or failed), and one whose condition was true is
      never skipped. */
  lemma PlanDecides(r: TwoRuns, k: nat)
    requires r.Valid() && k < |r.order| && Sane(r.apply) && r.Steady(k)
    ensures var c, o := r.plan.when(r.order[k], ResultsOf(r.Planned()[..k])), r.Applied()[k];
      && (c == Holds(false) ==>
            !o.dispatched && (o.result.disposition in {SkippedByCondition, BlockedByFailFast} || o.result.IsFailure()))
      && (c == Holds(true) ==> o.result.disposition != SkippedByCondition)
  {
    hide Condition, History, RegistersOf, Of, WhenOf;
    BothAt(r, k);
    WhenKept(r, k, k, k);
    HistoryAt(r.rc.rs, Apply, r.apply, r.order, k);
  }

  /** What plan evaluates behind `p` positions and what apply evaluates behind `q` for the resource at `m`. */
  lemma WhenKept(r: TwoRuns, p: nat, q: nat, m: nat)
    requires r.Valid() && p <= |r.order| && q <= |r.order| && m < |r.order| && r.Steady(Least(p, q))
    ensures var i := r.order[m];
      Kept(WhenOf(r.rc.whens[i], r.PlanScope(p, i), r.fl), WhenOf(r.rc.whens[i], r.ApplyScope(q, i), r.fl))
  {
    hide Condition, History, RegistersOf, Of;
    var i := r.order[m];
    ScopeFills(r, p, q, i);
    if r.rc.whens[i].Some? {
      ConditionStays(r.rc.whens[i].value, r.PlanScope(p, i), r.ApplyScope(q, i), r.fl);
    }
  }

  /** The conditions as plan evaluates them when it is behind `p` positions. */
  ghost function PlanConditions(r: TwoRuns, p: nat): nat -> Cond
    requires r.Valid() && p <= |r.order|
  {
    var rc, fl, registers := r.rc, r.fl, Some(RegistersOf(r.rc.rs, r.order, r.Planned()[..p]));
    (i: nat) => if i < |rc.rs| && i < |rc.whens| && i < |rc.own|
                then WhenOf(rc.whens[i], rc.own[i].(registers := registers), fl) else Undecided
  }

  /** As long as no command before `p` flipped: what plan, wherever it has got to, finds certainly
      blocked is never dispatched by apply. */
  lemma PlanBlocks(r: TwoRuns, p: nat, k: nat)
    requires r.Valid() && p <= |r.order| && k < |r.order| && r.Steady(p)
    ensures ReachesFalse(Dependencies(r.rc.rs), r.order[k], PlanConditions(r, p)) ==> !r.Applied()[k].dispatched
  {
    hide History, ReachesFalse, WhenOf, RegistersOf, Dependencies, Of;
    var cond := PlanConditions(r, p);
    forall m | 0 <= m < |r.order| && cond(r.order[m]) == Holds(false)
      ensures r.apply.when(r.order[m], ResultsOf(r.Applied()[..m])) != Holds(true)
    {
      BothAt(r, m);
      WhenKept(r, p, m, m);
    }
    if ReachesFalse(Dependencies(r.rc.rs), r.order[k], cond) {
      BlockedNeverDispatched(r.rc.rs, Apply, r.apply, r.order, k, cond);
    }
  }
}
