/** A whole run: order, resource stage, handler stage, status. */
module Run {
  import opened Wrappers
  import opened Model
  import opened Ordering
  import opened Results
  import opened Paths
  import opened Effects
  import opened Engine
  import Text

  datatype HandlerState = HandlerNotRun | HandlerSucceeded | HandlerFailed | HandlerIndeterminate

  datatype HandlerResult = HandlerResult(id: string, state: HandlerState) {
    predicate Stops() { state == HandlerFailed || state == HandlerIndeterminate }
  }

  datatype Status = Success | PlanError | ApplyFailed | RunIndeterminate

  datatype Manager = Manager(failed: bool, indeterminate: bool)

  datatype Report = Report(
    resources: seq<ResourceResult>,
    handlersRun: seq<HandlerResult>,
    handlersPending: seq<string>,
    status: Status)

  datatype RunError = NoOrder(error: OrderError) | BackupFailed | PlanFailed

  /** The backup stage before the resources: whether any path is declared, and then how copying
      ends and what is at each directory of the store's chain. */
  datatype BackupStage = NoBackup | Declared(copied: bool, sudo: bool, home: string, observe: string -> Observed)

  /** Plan expects apply to create the store; apply has created it before any resource. */
  function PlannedStart(mode: Mode, backup: BackupStage): Planned {
    var none := Planned([], None);
    if mode == Plan && backup.Declared? then none.RecordStore(StoreChain(backup.sudo, backup.home), backup.observe) else none
  }

  /** The order every run takes: topological, and least among those. */
  ghost predicate IsRunOrder(rs: seq<Resource>, order: seq<nat>) {
    && DependenciesExist(rs) && Topological(Dependencies(rs), order)
    && forall other :: Topological(Dependencies(rs), other) ==> LexLeq(order, other)
  }

  lemma {:induction false} LexLeqBoth(a: seq<nat>, b: seq<nat>)
    requires LexLeq(a, b) && LexLeq(b, a)
    ensures a == b
  {
    if a != [] && b != [] && a[0] == b[0] {
      LexLeqBoth(a[1..], b[1..]);
      assert a == [a[0]] + a[1..] && b == [b[0]] + b[1..];
    }
  }

  /** The order found is the only one a run can take. */
  lemma OneRunOrder(rs: seq<Resource>, order: seq<nat>)
    requires IsRunOrder(rs, order)
    ensures Indices(rs, order) && forall other :: IsRunOrder(rs, other) ==> other == order
  {
    hide Topological, LexLeq, Dependencies;
    TopologicalIndices(rs, order);
    forall other | IsRunOrder(rs, other)
      ensures other == order
    {
      LexLeqBoth(order, other);
    }
  }

  /** A missing dependency or a cycle leaves no order at all. */
  lemma NoRunOrder(rs: seq<Resource>)
    requires !(DependenciesExist(rs) && Acyclic(Dependencies(rs)))
    ensures forall order :: !IsRunOrder(rs, order)
  {
    hide Topological, LexLeq, Dependencies, Acyclic;
    forall order
      ensures !IsRunOrder(rs, order)
    {
      if IsRunOrder(rs, order) {
        TopologicalAcyclic(Dependencies(rs), order);
        assert false;
      }
    }
  }

  type Act = (string, seq<HandlerResult>) -> HandlerState

  // -------------------------------------------------------------- handler stage

  /** The queued handlers in declaration order. */
  function DeclarationOrder(handlers: seq<string>, names: seq<string>): (r: seq<string>)
    ensures forall x :: x in r <==> x in handlers && x in names
  {
    if handlers == [] then []
    else
      var rest := DeclarationOrder(handlers[1..], names);
      if handlers[0] in names then [handlers[0]] + rest else rest
  }

  /** Run `ids` until one fails or becomes indeterminate; the rest stays pending. */
  function RunHandlers(ids: seq<string>, done: seq<HandlerResult>, act: Act): (seq<HandlerResult>, seq<string>)
    decreases |ids|
  {
    if ids == [] || (done != [] && done[|done| - 1].Stops()) then (done, ids)
    else RunHandlers(ids[1..], done + [HandlerResult(ids[0], act(ids[0], done))], act)
  }

  function HandlerStage(handlers: seq<string>, mode: Mode, stopped: bool, names: seq<string>, act: Act):
    (seq<HandlerResult>, seq<string>)
  {
    if mode == Plan || stopped then ([], names)
    else RunHandlers(DeclarationOrder(handlers, names), [], act)
  }

  predicate SomeHandler(run: seq<HandlerResult>, state: HandlerState) { exists r :: r in run && r.state == state }

  function RunStatus(mode: Mode, out: seq<ResourceResult>, run: seq<HandlerResult>, m: Manager): Status {
    if mode == Plan then
      if HasStopped(out) then PlanError else Success
    else if SomeHandler(run, HandlerIndeterminate) || m.indeterminate || exists r :: r in out && r.IsIndeterminate() then
      RunIndeterminate
    else if SomeHandler(run, HandlerFailed) || m.failed || exists r :: r in out && r.IsFailure() then ApplyFailed
    else Success
  }

  /** The report of a run whose resource stage went as `h`; `manager` gets whether anything stopped. */
  function ReportOf(
      rs: seq<Resource>, handlers: seq<string>, mode: Mode, order: seq<nat>, h: seq<Outcome>, act: Act,
      manager: bool -> Manager): Report
    requires Indices(rs, order) && |h| <= |order|
  {
    var out := ResultsOf(h);
    var (run, pending) := HandlerStage(handlers, mode, HasStopped(out), Notified(rs, order, h), act);
    var m := manager(HasStopped(out) || exists r :: r in run && r.Stops());
    Report(out, run, pending, RunStatus(mode, out, run, m))
  }

  // -------------------------------------------------------------- what it promises

  function Ids(run: seq<HandlerResult>): seq<string> {
    seq(|run|, k requires 0 <= k < |run| => run[k].id)
  }

  /** The handler at `k` did what it does after those before it. */
  predicate Acted(run: seq<HandlerResult>, k: nat, act: Act)
    requires k < |run|
  {
    run[k].state == act(run[k].id, run[..k])
  }

  /** Failed or indeterminate. */
  predicate Broke(x: HandlerResult) { x.state in {HandlerFailed, HandlerIndeterminate} }

  lemma {:induction false} HandlersAccounted(ids: seq<string>, done: seq<HandlerResult>, act: Act)
    requires forall k :: 0 <= k < |done| - 1 ==> !Broke(done[k])
    requires forall k :: 0 <= k < |done| ==> Acted(done, k, act)
    ensures var (run, pending) := RunHandlers(ids, done, act);
      && Ids(run) + pending == Ids(done) + ids
      && (forall k :: 0 <= k < |run| ==> Acted(run, k, act))
      && (forall k :: 0 <= k < |run| - 1 ==> !Broke(run[k]))
      && (pending != [] ==> run != [] && Broke(run[|run| - 1]))
    decreases |ids|
  {
    hide Ids;
    if ids == [] || (done != [] && Broke(done[|done| - 1])) {
    } else {
      var r := HandlerResult(ids[0], act(ids[0], done));
      forall k | 0 <= k <= |done|
        ensures Acted(done + [r], k, act)
      {
        assert k < |done| ==> Acted(done, k, act);
        assert (done + [r])[..k] == done[..k];
      }
      HandlersAccounted(ids[1..], done + [r], act);
      IdsMore(done, r, ids);
    }
  }

  lemma IdsMore(done: seq<HandlerResult>, r: HandlerResult, ids: seq<string>)
    requires ids != [] && ids[0] == r.id
    ensures Ids(done + [r]) + ids[1..] == Ids(done) + ids
  {
  }

  /** In apply every notified handler appears exactly once across run and pending. When the
      resource stage did not stop they are in declaration order, only the last run one may
      have failed, and one is pending only behind a failed one; after a stop none has run and
      all are pending, in name order. In plan none runs. */
  lemma HandlerStageExact(handlers: seq<string>, stopped: bool, names: seq<string>, act: Act)
    ensures var (run, pending) := HandlerStage(handlers, Apply, stopped, names, act);
      && (!stopped ==>
            && Ids(run) + pending == DeclarationOrder(handlers, names)
            && (forall k :: 0 <= k < |run| ==> Acted(run, k, act))
            && (forall k :: 0 <= k < |run| - 1 ==> !Broke(run[k]))
            && (pending != [] ==> run != [] && Broke(run[|run| - 1])))
      && (stopped ==> run == [] && pending == names)
    ensures HandlerStage(handlers, Plan, stopped, names, act) == ([], names)
  {
    HandlersAccounted(DeclarationOrder(handlers, names), [], act);
    assert Ids([]) + DeclarationOrder(handlers, names) == DeclarationOrder(handlers, names);
  }

  ghost predicate Once(names: seq<string>) {
    forall i, j :: 0 <= i < |names| && 0 <= j < |names| && names[i] == names[j] ==> i == j
  }

  lemma {:induction false} DeclaredOnce(handlers: seq<string>, names: seq<string>)
    requires Once(handlers)
    ensures Once(DeclarationOrder(handlers, names))
  {
    if handlers != [] {
      DeclaredOnce(handlers[1..], names);
      assert handlers[0] !in handlers[1..];
    }
  }

  /** So run-then-pending is in declaration order after every run exactly when declaration
      order is also name order for the handlers notified. */
  lemma AlwaysDeclarationOrder(handlers: seq<string>, names: seq<string>, act: Act)
    requires InNameOrder(names) && forall x :: x in names ==> x in handlers
    ensures (forall stopped ::
               var (run, pending) := HandlerStage(handlers, Apply, stopped, names, act);
               Ids(run) + pending == DeclarationOrder(handlers, names))
            <==> InNameOrder(DeclarationOrder(handlers, names))
  {
    HandlerStageExact(handlers, true, names, act);
    HandlerStageExact(handlers, false, names, act);
    assert Ids([]) + names == names;
    var (run, pending) := HandlerStage(handlers, Apply, true, names, act);
    assert Ids(run) + pending == names;
    if InNameOrder(DeclarationOrder(handlers, names)) {
      forall x, y
        ensures !(Text.LexLess(x, y) && Text.LexLess(y, x))
      {
        Text.LexTotal(x, y);
      }
      SameSorted(Text.LexLess, names, DeclarationOrder(handlers, names));
    }
  }

  /** It is not for every run: `b` declared before `a`, both notified, then a stop. */
  lemma StoppedPendingByName(act: Act)
    ensures HandlerStage(["b", "a"], Apply, true, ["a", "b"], act).1 != DeclarationOrder(["b", "a"], ["a", "b"])
  {
    assert DeclarationOrder(["b", "a"], ["a", "b"])[0] == "b";
  }

  /** Some resource ended in one of these ways, or some handler did. */
  predicate SomeEnded(h: seq<Outcome>, ways: set<Execution>) { exists k :: 0 <= k < |h| && h[k].result.execution in ways }

  predicate SomeHandled(run: seq<HandlerResult>, states: set<HandlerState>) {
    exists k :: 0 <= k < |run| && run[k].state in states
  }

  /** What each status says. The manager is asked with whether anything failed or became indeterminate. */
  lemma StatusExact(
      rs: seq<Resource>, handlers: seq<string>, mode: Mode, order: seq<nat>, h: seq<Outcome>, act: Act,
      manager: bool -> Manager)
    requires Indices(rs, order) && |h| <= |order|
    ensures var r := ReportOf(rs, handlers, mode, order, h, act, manager);
      var broken := SomeEnded(h, {Failed, Indeterminate});
      var m := manager(broken || SomeHandled(r.handlersRun, {HandlerFailed, HandlerIndeterminate}));
      var unsure := SomeEnded(h, {Indeterminate}) || SomeHandled(r.handlersRun, {HandlerIndeterminate}) || m.indeterminate;
      var failed := SomeEnded(h, {Failed}) || SomeHandled(r.handlersRun, {HandlerFailed}) || m.failed;
      && r.resources == ResultsOf(h)
      && (r.handlersRun, r.handlersPending) == HandlerStage(handlers, mode, broken, Notified(rs, order, h), act)
      && (mode == Plan ==> (r.status == Success <==> !broken) && (r.status == PlanError <==> broken))
      && (mode == Apply ==>
            && (r.status == Success <==> !unsure && !failed)
            && (r.status == RunIndeterminate <==> unsure)
            && (r.status == ApplyFailed <==> failed && !unsure))
  {
    hide Notified, HandlerStage;
    var out := ResultsOf(h);
    var run := ReportOf(rs, handlers, mode, order, h, act, manager).handlersRun;
    forall k | 0 <= k < |h|
      ensures out[k] in out
    {
    }
    forall k | 0 <= k < |run|
      ensures run[k] in run
    {
    }
    assert HasStopped(out) <==> SomeEnded(h, {Failed, Indeterminate});
    assert (exists x :: x in run && x.Stops()) <==> SomeHandled(run, {HandlerFailed, HandlerIndeterminate});
    assert (exists x :: x in out && x.IsIndeterminate()) <==> SomeEnded(h, {Indeterminate});
    assert (exists x :: x in out && x.IsFailure()) <==> SomeEnded(h, {Failed});
    assert SomeHandler(run, HandlerIndeterminate) <==> SomeHandled(run, {HandlerIndeterminate});
    assert SomeHandler(run, HandlerFailed) <==> SomeHandled(run, {HandlerFailed});
  }

  /** An apply run reported a success left nothing undone: no handler pending or failed, no
      resource failed, indeterminate or blocked by fail-fast. */
  lemma SuccessMeansDone(
      rs: seq<Resource>, handlers: seq<string>, w: World, order: seq<nat>, act: Act, manager: bool -> Manager)
    requires Indices(rs, order) && History(rs, Apply, w, order).Some? && Sane(w)
    ensures var h := History(rs, Apply, w, order).value;
      var r := ReportOf(rs, handlers, Apply, order, h, act, manager);
      r.status == Success ==>
        && r.handlersPending == []
        && (forall x :: x in r.handlersRun ==> !x.Stops())
        && Ids(r.handlersRun) == DeclarationOrder(handlers, Notified(rs, order, h))
        && (forall k :: 0 <= k < |h| ==> !h[k].result.Stops() && h[k].result.disposition != BlockedByFailFast)
  {
    hide History, Notified;
    var h := History(rs, Apply, w, order).value;
    var out, names := ResultsOf(h), Notified(rs, order, h);
    var r := ReportOf(rs, handlers, Apply, order, h, act, manager);
    HandlerStageExact(handlers, HasStopped(out), names, act);
    if r.status == Success {
      forall x | x in r.handlersRun
        ensures !x.Stops()
      {
        assert !SomeHandler(r.handlersRun, HandlerFailed) && !SomeHandler(r.handlersRun, HandlerIndeterminate);
      }
      forall k | 0 <= k < |h|
        ensures !h[k].result.Stops()
      {
        assert out[k] in out;
      }
      assert r.handlersPending == [];
      assert Ids(r.handlersRun) + [] == Ids(r.handlersRun);
      forall k | 0 <= k < |h|
        ensures h[k].result.disposition != BlockedByFailFast
      {
        FailFast(rs, Apply, w, order, k);
      }
    }
  }

  // ------------------------------------------------------------- sorting by declaration

  function Place(handlers: seq<string>, x: string): (i: nat)
    ensures i <= |handlers| && (x in handlers <==> i < |handlers|) && (i < |handlers| ==> handlers[i] == x)
  {
    if handlers == [] || handlers[0] == x then 0 else 1 + Place(handlers[1..], x)
  }

  ghost predicate ByPlace(handlers: seq<string>, s: seq<string>) {
    forall i, j :: 0 <= i < j < |s| ==> Place(handlers, s[i]) < Place(handlers, s[j])
  }

  lemma NotEmpty(s: seq<string>)
    requires s != []
    ensures exists x :: x in s
  {
    assert s[0] in s;
  }

  /** Lists sorted strictly the same way with the same elements are equal. */
  lemma {:induction false} SameSorted(less: (string, string) -> bool, a: seq<string>, b: seq<string>)
    requires forall x, y :: !(less(x, y) && less(y, x))
    requires forall i, j :: 0 <= i < j < |a| ==> less(a[i], a[j])
    requires forall i, j :: 0 <= i < j < |b| ==> less(b[i], b[j])
    requires forall x :: x in a <==> x in b
    ensures a == b
  {
    if a == [] {
      if b != [] {
        NotEmpty(b);
        assert false;
      }
    } else {
      assert a[0] in b && b[0] in a;
      var i :| 0 <= i < |b| && b[i] == a[0];
      var j :| 0 <= j < |a| && a[j] == b[0];
      assert a[0] == b[0];
      assert a[0] !in a[1..] && b[0] !in b[1..];
      assert a == [a[0]] + a[1..] && b == [b[0]] + b[1..];
      forall x
        ensures x in a[1..] <==> x in b[1..]
      {
        assert x in a <==> x == a[0] || x in a[1..];
        assert x in b <==> x == b[0] || x in b[1..];
      }
      SameSorted(less, a[1..], b[1..]);
    }
  }

  lemma {:induction false} DeclarationOrderByPlace(handlers: seq<string>, names: seq<string>)
    requires Once(handlers)
    ensures ByPlace(handlers, DeclarationOrder(handlers, names))
  {
    if handlers != [] {
      var tail := handlers[1..];
      var rest := DeclarationOrder(tail, names);
      assert handlers[0] !in tail;
      DeclarationOrderByPlace(tail, names);
      forall x | x in tail
        ensures Place(handlers, x) == 1 + Place(tail, x)
      {
      }
      forall i, j | 0 <= i < j < |rest|
        ensures Place(handlers, rest[i]) < Place(handlers, rest[j])
      {
        assert rest[i] in rest && rest[j] in rest;
      }
      var r := DeclarationOrder(handlers, names);
      if handlers[0] in names {
        forall j | 0 < j < |r|
          ensures Place(handlers, r[0]) < Place(handlers, r[j])
        {
          assert r[j] in rest;
        }
      }
    }
  }

  method SortByDeclaration(handlers: seq<string>, names: seq<string>) returns (ids: seq<string>)
    requires Once(handlers) && Once(names) && forall x :: x in names ==> x in handlers
    ensures ids == DeclarationOrder(handlers, names)
  {
    ids := [];
    for i := 0 to |names|
      invariant ByPlace(handlers, ids)
      invariant forall x :: x in ids <==> x in names[..i]
    {
      var k := 0;
      while k < |ids| && Place(handlers, ids[k]) < Place(handlers, names[i])
        invariant 0 <= k <= |ids|
        invariant forall m :: 0 <= m < k ==> Place(handlers, ids[m]) < Place(handlers, names[i])
      {
        k := k + 1;
      }
      InsertByPlace(handlers, ids, k, names[i], names, i);
      ids := ids[..k] + [names[i]] + ids[k..];
    }
    assert names[..|names|] == names;
    DeclarationOrderByPlace(handlers, names);
    SameSorted((x, y) => Place(handlers, x) < Place(handlers, y), ids, DeclarationOrder(handlers, names));
  }

  lemma InsertByPlace(handlers: seq<string>, ids: seq<string>, k: nat, x: string, names: seq<string>, i: nat)
    requires ByPlace(handlers, ids) && k <= |ids| && i < |names| && names[i] == x && x in handlers
    requires Once(names) && forall y :: y in ids <==> y in names[..i]
    requires forall m :: 0 <= m < k ==> Place(handlers, ids[m]) < Place(handlers, x)
    requires k < |ids| ==> Place(handlers, ids[k]) >= Place(handlers, x)
    ensures var r := ids[..k] + [x] + ids[k..];
      ByPlace(handlers, r) && forall y :: y in r <==> y in names[..i + 1]
  {
    var r := ids[..k] + [x] + ids[k..];
    assert x !in names[..i];
    assert names[..i + 1] == names[..i] + [x];
    assert ids == ids[..k] + ids[k..];
    if k < |ids| {
      assert ids[k] in ids && ids[k] != x;
      assert Place(handlers, ids[k]) > Place(handlers, x);
    }
    InsertKeepsOrder(handlers, ids, k, x);
  }

  lemma InsertKeepsOrder(handlers: seq<string>, ids: seq<string>, k: nat, x: string)
    requires ByPlace(handlers, ids) && k <= |ids|
    requires forall m :: 0 <= m < k ==> Place(handlers, ids[m]) < Place(handlers, x)
    requires k < |ids| ==> Place(handlers, ids[k]) > Place(handlers, x)
    ensures ByPlace(handlers, ids[..k] + [x] + ids[k..])
  {
    hide Place;
    var r := ids[..k] + [x] + ids[k..];
    forall a, b | 0 <= a < b < |r|
      ensures Place(handlers, r[a]) < Place(handlers, r[b])
    {
      assert a < k ==> r[a] == ids[a];
      assert b < k ==> r[b] == ids[b];
      assert a > k ==> r[a] == ids[a - 1];
      assert b > k ==> r[b] == ids[b - 1];
    }
  }

  // -------------------------------------------------------------------- the code

  ghost predicate Indexed(out: seq<ResourceResult>, results: map<string, nat>) {
    && (forall id :: id in results ==> results[id] < |out| && LastResult(out, id) == Some(out[results[id]]))
    && (forall id :: id !in results ==> LastResult(out, id) == None)
  }

  lemma IndexedMore(out: seq<ResourceResult>, results: map<string, nat>, r: ResourceResult)
    requires Indexed(out, results)
    ensures Indexed(out + [r], results[r.id := |out|])
  {
    var longer := out + [r];
    assert longer[..|longer| - 1] == out;
  }

  /** Position `pos`, given the history `h` before it. */
  lemma StepOrStop(rs: seq<Resource>, mode: Mode, w: World, order: seq<nat>, pos: nat, h: seq<Outcome>)
    requires Indices(rs, order) && pos < |order| && History(rs, mode, w, order[..pos]) == Some(h)
    ensures match Decide(rs, mode, w, order[pos], ResultsOf(h))
            case None => History(rs, mode, w, order).None?
            case Some(o) => History(rs, mode, w, order[..pos + 1]) == Some(h + [o])
  {
    var longer := order[..pos + 1];
    assert longer[..|longer| - 1] == order[..pos];
    if Decide(rs, mode, w, order[pos], ResultsOf(h)).None? {
      StaysNone(rs, mode, w, order, pos + 1);
    }
  }

  lemma {:induction false} StaysNone(rs: seq<Resource>, mode: Mode, w: World, order: seq<nat>, pos: nat)
    requires Indices(rs, order) && pos <= |order| && History(rs, mode, w, order[..pos]).None?
    ensures History(rs, mode, w, order).None?
    decreases |order| - pos
  {
    if pos == |order| {
      assert order[..pos] == order;
    } else {
      assert order[..pos + 1][..pos] == order[..pos];
      StaysNone(rs, mode, w, order, pos + 1);
    }
  }

  /** Only plan can end in a plan error. */
  lemma {:induction false} ApplyCompletes(rs: seq<Resource>, w: World, order: seq<nat>)
    requires Indices(rs, order)
    ensures History(rs, Apply, w, order).Some?
  {
    if order != [] {
      ApplyCompletes(rs, w, order[..|order| - 1]);
    }
  }

  lemma StepExtends(rs: seq<Resource>, mode: Mode, start: Planned, order: seq<nat>, h: seq<Outcome>, o: Outcome)
    requires Indices(rs, order) && |h| < |order|
    ensures ResultsOf(h + [o]) == ResultsOf(h) + [o.result]
    ensures HasStopped(ResultsOf(h + [o])) <==> HasStopped(ResultsOf(h)) || o.result.Stops()
    ensures Notified(rs, order, h + [o]) ==
      if o.dispatched && o.result.DefinitelyChanged() then QueueAll(Notified(rs, order, h), rs[order[|h|]].notify)
      else Notified(rs, order, h)
    ensures PlannedAlong(rs, mode, start, order, h + [o]) ==
      var reached := Reached(rs, mode, start, order, h);
      if mode == Plan && o.guard.Some? then reached.GuardMayFlip(rs[order[|h|]].id, o.guard.value) else reached
  {
    var longer := h + [o];
    assert longer[..|longer| - 1] == h;
    assert ResultsOf(longer) == ResultsOf(h) + [o.result];
    if mode == Apply { PlannedNothing(rs, start, order, h, longer); }
  }

  lemma ReachedStep(rs: seq<Resource>, mode: Mode, start: Planned, order: seq<nat>, h: seq<Outcome>)
    requires Indices(rs, order) && |h| <= |order|
    ensures Reached(rs, mode, start, order, h) ==
      var along := PlannedAlong(rs, mode, start, order, h);
      if mode == Plan && h != [] then along.Record(rs[order[|h| - 1]], h[|h| - 1].result) else along
  {
  }

  lemma PlannedNothing(rs: seq<Resource>, start: Planned, order: seq<nat>, h: seq<Outcome>, longer: seq<Outcome>)
    requires Indices(rs, order) && |h| <= |order| && |longer| <= |order|
    ensures PlannedAlong(rs, Apply, start, order, longer) == Reached(rs, Apply, start, order, h) == start
  {
  }

  lemma NothingYet(rs: seq<Resource>, mode: Mode, w: World, start: Planned, order: seq<nat>)
    requires Indices(rs, order)
    ensures History(rs, mode, w, order[..0]) == Some([]) && ResultsOf([]) == []
    ensures Notified(rs, order, []) == [] && !HasStopped([]) && Indexed([], map[])
    ensures PlannedAlong(rs, mode, start, order, []) == start
  {
  }

  lemma DecideStopped(rs: seq<Resource>, mode: Mode, w: World, i: nat, out: seq<ResourceResult>)
    requires i < |rs| && HasStopped(out)
    ensures Decide(rs, mode, w, i, out) == Some(Told(NotRunResult(rs[i].id, BlockedByFailFast, false), false))
  {
  }

  lemma DecideId(rs: seq<Resource>, mode: Mode, w: World, i: nat, out: seq<ResourceResult>)
    requires i < |rs| && Decide(rs, mode, w, i, out).Some?
    ensures Decide(rs, mode, w, i, out).value.result.id == rs[i].id
  {
  }

  class Runner {
    const rs: seq<Resource>
    const handlers: seq<string>
    const mode: Mode
    var planned: PlannedEffects

    constructor (rs: seq<Resource>, handlers: seq<string>, mode: Mode)
      ensures this.rs == rs && this.handlers == handlers && this.mode == mode && fresh(planned)
    {
      this.rs, this.handlers, this.mode := rs, handlers, mode;
      planned := new PlannedEffects();
    }

    method CheckDependencies(out: seq<ResourceResult>, results: map<string, nat>, deps: seq<string>) returns (g: Gate)
      requires Indexed(out, results)
      ensures g == DependencyGate(out, deps)
    {
      for k := 0 to |deps|
        invariant DependencyGate(out, deps) == DependencyGate(out, deps[k..])
      {
        assert deps[k..][1..] == deps[k + 1..];
        if deps[k] in results {
          var dr := out[results[deps[k]]];
          if dr.SatisfiesDependency() { continue; }
          return if dr.IsUnknownDependency() then BlockedUnknown else Blocked;
        }
        return Blocked;
      }
      g := Open;
    }

    /** One resource that is reached: None is a plan error. */
    method Visit(i: nat, w: World, out: seq<ResourceResult>, results: map<string, nat>) returns (o: Option<Outcome>)
      requires i < |rs| && Indexed(out, results) && !HasStopped(out)
      ensures o == Decide(rs, mode, w, i, out)
    {
      var res := rs[i];
      match w.when(i, out) {
        case CondError =>
          if mode == Plan { return None; }
          return Some(Told(FailedResult(res.id, false, NoMutation), false));
        case Holds(false) =>
          return Some(Told(NotRunResult(res.id, SkippedByCondition, false), false));
        case Undecided =>
          if mode == Apply { return Some(Told(FailedResult(res.id, false, NoMutation), false)); }
          return Some(Told(NotRunResult(res.id, Normal, true), false));
        case Holds(true) =>
          var gate := CheckDependencies(out, results, res.dependsOn);
          if gate != Open {
            var r := NotRunResult(res.id, BlockedByDependency, false);
            if gate == BlockedUnknown { r := r.(unknown := true, disposition := Normal); }
            return Some(Told(r, false));
          }
          match w.dispatch(i, out) {
            case Done(result, guard, register) =>
              return Some(Outcome(result.(id := res.id), true, if mode == Plan then guard else None, register));
            case Raised(ind, mutation) =>
              if mode == Plan { return None; }
              return Some(Told(FailedResult(res.id, ind, mutation), true));
          }
      }
    }

    /** The resource stage; `ok` is false when a plan error ended it. */
    method RunResources(order: seq<nat>, w: World, start: Planned)
      returns (out: seq<ResourceResult>, notified: seq<string>, stopped: bool, ok: bool, ghost h: seq<Outcome>)
      requires Indices(rs, order) && planned.View() == start
      modifies planned
      ensures ok <==> History(rs, mode, w, order).Some?
      ensures ok ==>
        && History(rs, mode, w, order) == Some(h)
        && out == ResultsOf(h) && notified == Notified(rs, order, h) && stopped == HasStopped(out)
        && planned.View() == PlannedAlong(rs, mode, start, order, h)
    {
      hide History, Decide, Indexed, HasStopped, Notified, PlannedAlong, Reached, QueueAll, Quiet;
      out, notified, stopped, ok, h := [], [], false, true, [];
      var results: map<string, nat> := map[];
      NothingYet(rs, mode, w, start, order);
      for pos := 0 to |order|
        invariant planned == old(planned)
        invariant |h| == pos && History(rs, mode, w, order[..pos]) == Some(h)
        invariant out == ResultsOf(h) && notified == Notified(rs, order, h) && stopped == HasStopped(out)
        invariant Indexed(out, results) && ok
        invariant planned.View() == PlannedAlong(rs, mode, start, order, h)
      {
        var i := order[pos];
        if mode == Plan && pos > 0 {
          planned.Record(rs[order[pos - 1]], out[pos - 1]);
        }
        ReachedStep(rs, mode, start, order, h);
        StepOrStop(rs, mode, w, order, pos, h);
        var o: Outcome;
        if stopped {
          DecideStopped(rs, mode, w, i, out);
          o := Told(NotRunResult(rs[i].id, BlockedByFailFast, false), false);
        } else {
          var v := Visit(i, w, out, results);
          if v.None? {
            ok := false;
            return;
          }
          o := v.value;
          if mode == Plan && o.guard.Some? {
            planned.GuardMayFlip(rs[i].id, o.guard.value);
          }
          stopped := o.result.Stops();
          if o.dispatched && o.result.DefinitelyChanged() { notified := QueueAll(notified, rs[i].notify); }
        }
        StepExtends(rs, mode, start, order, h, o);
        DecideId(rs, mode, w, i, out);
        IndexedMore(out, results, o.result);
        results := results[rs[i].id := |out|];
        out := out + [o.result];
        h := h + [o];
      }
      assert order[..|order|] == order;
    }

    /** Run everything; the promises are those of `ReportOf`, over every world. */
    method Run(w: World, act: Act, manager: bool -> Manager, backup: BackupStage) returns (r: Result<Report, RunError>)
      requires Once(handlers)
      requires forall i, x :: 0 <= i < |rs| && x in rs[i].notify ==> x in handlers
      modifies this, planned
      ensures r.Err? && r.error.NoOrder? <==> !(DependenciesExist(rs) && Acyclic(Dependencies(rs)))
      ensures r == Err(BackupFailed) <==>
        && DependenciesExist(rs) && Acyclic(Dependencies(rs))
        && mode == Apply && backup.Declared? && !backup.copied
      ensures r == Err(PlanFailed) <==>
        mode == Plan && exists order :: IsRunOrder(rs, order) && Indices(rs, order) && History(rs, mode, w, order).None?
      ensures r.Ok? ==>
        exists order, h ::
          && IsRunOrder(rs, order) && Indices(rs, order)
          && History(rs, mode, w, order) == Some(h)
          && r.value == ReportOf(rs, handlers, mode, order, h, act, manager)
          && planned.View() == PlannedAlong(rs, mode, PlannedStart(mode, backup), order, h)
    {
      hide History, Notified, Topological, LexLeq, RunHandlers, Acyclic, Dependencies, InNameOrder, RunStatus, PlannedAlong,
        StoreChain, IsRunOrder;
      var ordered := ExecutionOrder(rs);
      if ordered.Err? {
        NoRunOrder(rs);
        return Err(NoOrder(ordered.error));
      }
      var order := ordered.value;
      assert IsRunOrder(rs, order) by { Ordered(rs, order); }
      OneRunOrder(rs, order);
      if mode == Apply && backup.Declared? && !backup.copied { return Err(BackupFailed); }
      planned := new PlannedEffects();
      if mode == Plan && backup.Declared? {
        planned.RecordBackupStore(StoreChain(backup.sudo, backup.home), backup.observe);
      }
      var out, notified, stopped, ok, h := RunResources(order, w, PlannedStart(mode, backup));
      if !ok {
        if mode == Apply { ApplyCompletes(rs, w, order); }
        return Err(PlanFailed);
      }
      NotifiedInOrder(rs, order, h);
      var run: seq<HandlerResult>, pending := [], notified;
      if mode == Apply && !stopped {
        NameOrderOnce(notified);
        var ids := SortByDeclaration(handlers, notified);
        run, pending := RunHandlerStage(ids, act);
      }
      var runStopped := stopped || exists x :: x in run && x.Stops();
      var m := manager(runStopped);
      r := Ok(Report(out, run, pending, RunStatus(mode, out, run, m)));
      assert r.value == ReportOf(rs, handlers, mode, order, h, act, manager);
    }

    method RunHandlerStage(ids: seq<string>, act: Act) returns (run: seq<HandlerResult>, pending: seq<string>)
      ensures (run, pending) == RunHandlers(ids, [], act)
    {
      run, pending := [], [];
      var stopped := false;
      for i := 0 to |ids|
        invariant stopped == (run != [] && run[|run| - 1].Stops())
        invariant !stopped ==> pending == [] && RunHandlers(ids, [], act) == RunHandlers(ids[i..], run, act)
        invariant stopped ==> RunHandlers(ids, [], act) == (run, pending + ids[i..])
      {
        assert ids[i..] == [ids[i]] + ids[i + 1..];
        if stopped {
          assert pending + ids[i..] == pending + [ids[i]] + ids[i + 1..];
          pending := pending + [ids[i]];
        } else {
          var x := HandlerResult(ids[i], act(ids[i], run));
          run := run + [x];
          stopped := x.Stops();
          assert pending + ids[i + 1..] == ids[i + 1..];
        }
      }
      assert pending + ids[|ids|..] == pending;
    }
  }

  lemma Ordered(rs: seq<Resource>, order: seq<nat>)
    requires DependenciesExist(rs) && Topological(Dependencies(rs), order)
    requires forall other :: Topological(Dependencies(rs), other) ==> LexLeq(order, other)
    ensures IsRunOrder(rs, order)
  {
  }

  lemma TopologicalIndices(rs: seq<Resource>, order: seq<nat>)
    requires Topological(Dependencies(rs), order)
    ensures Indices(rs, order)
  {
  }

  lemma NameOrderOnce(names: seq<string>)
    requires InNameOrder(names)
    ensures Once(names)
  {
    forall i, j | 0 <= i < j < |names|
      ensures names[i] != names[j]
    {
      Text.LexTotal(names[i], names[j]);
    }
  }
}
