/** Running a command: its result, the register it stores, and what every expression evaluated
    later in the run reads of it. */
module CommandRun {
  import opened Wrappers
  import opened Syntax
  import opened Evaluation
  import opened Model
  import opened Ordering
  import opened Results
  import opened Effects
  import opened Engine
  import Capture

  /** What `changed_when` comes to: a boolean, or nothing usable. */
  datatype Verdict = Says(changed: bool) | Unusable

  /** What a command meets: an error before it ran, a satisfied guard, or its execution with the exit
      codes that count as success. */
  datatype Met =
    | Fails(indeterminate: bool, mutation: Mutation)
    | Satisfied(guard: Guard)
    | Runs(o: Capture.Output, codes: set<int>, verdict: Verdict, sensitive: bool)

  /** How the engine classes a command's completion. */
  function Execution(o: Capture.Output, codes: set<int>, verdict: Verdict): (e: Results.Execution)
    ensures e == Indeterminate <==> o.completion.Indeterminate?
  {
    match o.completion
    case Indeterminate => Results.Indeterminate
    case Signaled(_) => Failed
    case Exited(code) => if code in codes && verdict.Says? then Succeeded else Failed
  }

  function ExecutionText(e: Results.Execution): string {
    if e == Succeeded then "succeeded" else if e == Results.Indeterminate then "indeterminate" else "failed"
  }

  /** The result of an executed command; only a successful one is known not to have changed anything. */
  function CommandResult(id: string, o: Capture.Output, codes: set<int>, verdict: Verdict): ResourceResult {
    var e := Execution(o, codes, verdict);
    var change := if e != Succeeded then Possible else if verdict.changed then Changed else Unchanged;
    ResourceResult(id, e, change, NotApplicable, Normal, false)
  }

  /** The register an executed command stores, also when it failed or is indeterminate. */
  function RegisterOf(o: Capture.Output, codes: set<int>, verdict: Verdict, decode: Capture.Decoder): Value {
    var e := Execution(o, codes, verdict);
    Capture.RegisterMap(true, Some(o), if e == Succeeded then Some(verdict.changed) else None, ExecutionText(e), decode)
  }

  /** The register of a command whose guard was satisfied. */
  function GuardRegister(decode: Capture.Decoder): Value {
    Capture.RegisterMap(false, None, Some(false), "succeeded", decode)
  }

  /** Dispatching a command: a satisfied guard counts in plan as in apply; otherwise plan knows nothing. */
  function RunCommand(mode: Mode, res: Resource, met: Met, decode: Capture.Decoder): Dispatch {
    match met
    case Fails(indeterminate, mutation) => Raised(indeterminate, mutation)
    case Satisfied(guard) =>
      Done(ResourceResult(res.id, Succeeded, Unchanged, NotApplicable, GuardSatisfied, false), Some(guard),
           Some(EvalVal(Some(GuardRegister(decode)), res.sensitive)))
    case Runs(o, codes, verdict, sensitive) =>
      if mode == Plan then
        Done(ResourceResult(res.id, NotRun, Unchanged, NotApplicable, Normal, true), None, Some(EvalVal(None, false)))
      else
        Done(CommandResult(res.id, o, codes, verdict), None,
             Some(EvalVal(Some(RegisterOf(o, codes, verdict, decode)), sensitive)))
  }

  /** How an executed command is reported: succeeded when it exited with a success code and
      `changed_when` says something, and then changed as that says; anything else may have changed. */
  lemma CommandTold(id: string, o: Capture.Output, codes: set<int>, verdict: Verdict)
    ensures var r := CommandResult(id, o, codes, verdict);
      var well := o.completion.Exited? && o.completion.code in codes && verdict.Says?;
      && (r.execution == Succeeded <==> well)
      && (r.execution == Results.Indeterminate <==> o.completion.Indeterminate?)
      && (r.execution == Failed <==> !well && !o.completion.Indeterminate?)
      && (r.change == Changed <==> well && verdict.changed) && (r.change == Unchanged <==> well && !verdict.changed)
      && (r.change == Possible <==> !well)
      && r.id == id && r.disposition == Normal && r.verification == NotApplicable && !r.unknown
  {
  }

  /** Reading the register of an executed command, however it ended. */
  lemma ReadFields(
      name: string, o: Capture.Output, codes: set<int>, verdict: Verdict, sensitive: bool, sc: Scope,
      decode: Capture.Decoder, fl: Floats)
    requires sc.registers.Some? && name in sc.registers.value
    requires sc.registers.value[name] == EvalVal(Some(RegisterOf(o, codes, verdict, decode)), sensitive)
    ensures var well := o.completion.Exited? && o.completion.code in codes && verdict.Says?;
      && Reads(name, "executed", sc, fl, VBool(true), sensitive)
      && (o.completion.Exited? ==> Reads(name, "exit_code", sc, fl, VInt(o.completion.code), sensitive))
      && (!o.completion.Exited? ==> Reads(name, "exit_code", sc, fl, VNull, sensitive))
      && Reads(name, "changed", sc, fl, if well then VBool(verdict.changed) else VNull, sensitive)
      && (well ==> Reads(name, "execution", sc, fl, VStr("succeeded"), sensitive))
      && (o.completion.Indeterminate? ==> Reads(name, "execution", sc, fl, VStr("indeterminate"), sensitive))
      && (!well && !o.completion.Indeterminate? ==> Reads(name, "execution", sc, fl, VStr("failed"), sensitive))
  {
    hide Eval;
    var e := Execution(o, codes, verdict);
    Capture.RegisterFields(
      name, o, if e == Succeeded then Some(verdict.changed) else None, ExecutionText(e), sensitive, sc, decode, fl);
  }

  /** Reading the register of a command whose guard was satisfied: nothing was executed or changed. */
  lemma ReadGuardFields(name: string, sensitive: bool, sc: Scope, decode: Capture.Decoder, fl: Floats)
    requires sc.registers.Some? && name in sc.registers.value
    requires sc.registers.value[name] == EvalVal(Some(GuardRegister(decode)), sensitive)
    ensures forall field :: field in {"executed", "changed"} ==> Reads(name, field, sc, fl, VBool(false), sensitive)
    ensures forall field :: field in {"exit_code", "stdout", "stderr"} ==> Reads(name, field, sc, fl, VNull, sensitive)
    ensures Reads(name, "execution", sc, fl, VStr("succeeded"), sensitive)
  {
    Capture.GuardFields(name, sensitive, sc, decode, fl);
  }

  /** `registers.name.field` is this value with this flag. */
  predicate Reads(name: string, field: string, sc: Scope, fl: Floats, v: Value, sensitive: bool) {
    Eval(Register(name, field), sc, fl) == Ok(EvalVal(Some(v), sensitive))
  }

  /** In this run the commands, and only they, are dispatched as `RunCommand` says. */
  ghost predicate Commands(
      rs: seq<Resource>, mode: Mode, w: World, order: seq<nat>, h: seq<Outcome>, meets: nat -> Met, decode: Capture.Decoder)
    requires Indices(rs, order) && |h| <= |order|
  {
    forall k :: 0 <= k < |h| ==> CommandAt(rs, mode, w, order, h, meets, decode, k)
  }

  ghost predicate CommandAt(
      rs: seq<Resource>, mode: Mode, w: World, order: seq<nat>, h: seq<Outcome>, meets: nat -> Met, decode: Capture.Decoder,
      k: nat)
    requires Indices(rs, order) && k < |h| <= |order|
  {
    var d := w.dispatch(order[k], ResultsOf(h[..k]));
    if rs[order[k]].kind == "command" then d == RunCommand(mode, rs[order[k]], meets(k), decode)
    else d.Done? ==> d.guard.None? && d.register.None?
  }

  // -------------------------------------------------------------------- registers

  /** Register names are unique in a recipe. */
  ghost predicate UniqueRegisters(rs: seq<Resource>) {
    forall i, j :: 0 <= i < j < |rs| && rs[i].register.Some? ==> rs[i].register != rs[j].register
  }

  /** The registers stored by the results so far. */
  function RegistersOf(rs: seq<Resource>, order: seq<nat>, h: seq<Outcome>): Bindings
    requires Indices(rs, order) && |h| <= |order|
  {
    if h == [] then map[]
    else
      var n := |h| - 1;
      var before := RegistersOf(rs, order, h[..n]);
      if rs[order[n]].register.Some? && h[n].register.Some?
      then before[rs[order[n]].register.value := h[n].register.value]
      else before
  }

  /** The scope of a resource behind `h`: variables, facts and item are its own, registers those stored. */
  function ScopeAt(rs: seq<Resource>, order: seq<nat>, h: seq<Outcome>, own: Scope): Scope
    requires Indices(rs, order) && |h| <= |order|
  {
    own.(registers := Some(RegistersOf(rs, order, h)))
  }

  ghost predicate Stores(rs: seq<Resource>, order: seq<nat>, h: seq<Outcome>, j: nat, name: string)
    requires Indices(rs, order) && j < |h| <= |order|
  {
    rs[order[j]].register == Some(name) && h[j].register.Some?
  }

  /** A name is bound exactly when a command stored it, to what that command stored. */
  lemma {:induction false} RegisterStored(rs: seq<Resource>, order: seq<nat>, h: seq<Outcome>, p: nat, name: string)
    requires Indices(rs, order) && p <= |h| <= |order| && UniqueRegisters(rs) && Distinct(order)
    ensures name in RegistersOf(rs, order, h[..p]) <==> exists j :: 0 <= j < p && Stores(rs, order, h, j, name)
    ensures forall j :: 0 <= j < p && Stores(rs, order, h, j, name) ==>
      name in RegistersOf(rs, order, h[..p]) && RegistersOf(rs, order, h[..p])[name] == h[j].register.value
  {
    if p > 0 {
      RegisterStored(rs, order, h, p - 1, name);
      assert h[..p][..p - 1] == h[..p - 1];
      if name in RegistersOf(rs, order, h[..p]) && name !in RegistersOf(rs, order, h[..p - 1]) {
        assert Stores(rs, order, h, p - 1, name);
      }
    }
  }

  /** In every apply run, whatever is visited after a command reads its streams whole or not at all:
      an indeterminate command stored its register too, but then nothing is visited any more. */
  lemma LaterReadersGetAll(
      rs: seq<Resource>, w: World, order: seq<nat>, m: nat, k: nat, meets: nat -> Met, out: seq<Capture.Byte>,
      err: seq<Capture.Byte>, cap: nat, name: string, field: string, own: Scope, decode: Capture.Decoder, fl: Floats)
    requires Indices(rs, order) && History(rs, Apply, w, order).Some? && m < k < |order| && Sane(w)
    requires UniqueRegisters(rs) && Distinct(order)
    requires var h := History(rs, Apply, w, order).value;
      && Commands(rs, Apply, w, order, h, meets, decode)
      && h[m].dispatched && rs[order[m]].kind == "command" && rs[order[m]].register == Some(name)
      && h[k].result.disposition != BlockedByFailFast
    requires meets(m).Runs? && Capture.Collected(meets(m).o, out, err, cap) && field in {"stdout", "stderr"}
    ensures var sc := ScopeAt(rs, order, History(rs, Apply, w, order).value[..k], own);
      var r, stream := Eval(Register(name, field), sc, fl), Capture.StreamField(field, out, err);
      && (r.Ok? ==> decode(stream).Some? && r == Ok(EvalVal(Some(VStr(decode(stream).value)), meets(m).sensitive)))
      && (r.Ok? <==>
            Capture.StreamOf(meets(m).o, field) == Capture.Capture(stream, cap) && |stream| <= cap && decode(stream).Some?)
  {
    hide Eval, History, Capture.RegisterMap, Sane, RegistersOf;
    var h := History(rs, Apply, w, order).value;
    FailFast(rs, Apply, w, order, k);
    assert !h[m].result.Stops();
    HistoryAt(rs, Apply, w, order, m);
    assert CommandAt(rs, Apply, w, order, h, meets, decode, m);
    var met := meets(m);
    var e := Execution(met.o, met.codes, met.verdict);
    assert Stores(rs, order, h, m, name);
    RegisterStored(rs, order, h, k, name);
    Capture.WholeStreamOrError(
      name, field, met.o, out, err, cap, if e == Succeeded then Some(met.verdict.changed) else None, ExecutionText(e),
      met.sensitive, ScopeAt(rs, order, h[..k], own), decode, fl);
  }

  /** In every apply run, what is visited after a command executed sees that it exited with a success code,
      with which, that it was executed and succeeded, and whether it changed anything. */
  lemma LaterReadersSee(
      rs: seq<Resource>, w: World, order: seq<nat>, m: nat, k: nat, meets: nat -> Met, name: string, own: Scope,
      decode: Capture.Decoder, fl: Floats)
    requires Indices(rs, order) && History(rs, Apply, w, order).Some? && m < k < |order| && Sane(w)
    requires UniqueRegisters(rs) && Distinct(order)
    requires var h := History(rs, Apply, w, order).value;
      && Commands(rs, Apply, w, order, h, meets, decode)
      && h[m].dispatched && rs[order[m]].kind == "command" && rs[order[m]].register == Some(name)
      && h[k].result.disposition != BlockedByFailFast
    requires meets(m).Runs?
    ensures var sc, met := ScopeAt(rs, order, History(rs, Apply, w, order).value[..k], own), meets(m);
      && met.o.completion.Exited? && met.o.completion.code in met.codes && met.verdict.Says?
      && Reads(name, "exit_code", sc, fl, VInt(met.o.completion.code), met.sensitive)
      && Reads(name, "changed", sc, fl, VBool(met.verdict.changed), met.sensitive)
      && Reads(name, "executed", sc, fl, VBool(true), met.sensitive)
      && Reads(name, "execution", sc, fl, VStr("succeeded"), met.sensitive)
  {
    hide Eval, History, RegisterOf, Sane, RegistersOf, CommandResult;
    var h := History(rs, Apply, w, order).value;
    FailFast(rs, Apply, w, order, k);
    assert !h[m].result.Stops();
    HistoryAt(rs, Apply, w, order, m);
    assert CommandAt(rs, Apply, w, order, h, meets, decode, m);
    var met := meets(m);
    CommandTold(rs[order[m]].id, met.o, met.codes, met.verdict);
    assert Stores(rs, order, h, m, name);
    RegisterStored(rs, order, h, k, name);
    ReadFields(name, met.o, met.codes, met.verdict, met.sensitive, ScopeAt(rs, order, h[..k], own), decode, fl);
  }

  /** After a command whose guard was satisfied, in plan as in apply, its register says that nothing was
      executed or changed; after one that plan does not execute, every field is Unknown. */
  lemma UnexecutedReads(
      rs: seq<Resource>, mode: Mode, w: World, order: seq<nat>, m: nat, k: nat, meets: nat -> Met, name: string,
      field: string, own: Scope, decode: Capture.Decoder, fl: Floats)
    requires Indices(rs, order) && History(rs, mode, w, order).Some? && m < k < |order|
    requires UniqueRegisters(rs) && Distinct(order)
    requires var h := History(rs, mode, w, order).value;
      && Commands(rs, mode, w, order, h, meets, decode)
      && h[m].dispatched && rs[order[m]].kind == "command" && rs[order[m]].register == Some(name)
    ensures var sc, flag := ScopeAt(rs, order, History(rs, mode, w, order).value[..k], own), rs[order[m]].sensitive;
      && (meets(m).Satisfied? && field in {"executed", "changed"} ==> Reads(name, field, sc, fl, VBool(false), flag))
      && (meets(m).Satisfied? && field in {"exit_code", "stdout", "stderr"} ==> Reads(name, field, sc, fl, VNull, flag))
      && (meets(m).Satisfied? ==> Reads(name, "execution", sc, fl, VStr("succeeded"), flag))
      && (meets(m).Runs? && mode == Plan ==> Eval(Register(name, field), sc, fl) == Ok(EvalVal(None, false)))
  {
    hide Eval, History, GuardRegister, RegisterOf, RegistersOf, CommandResult;
    var h := History(rs, mode, w, order).value;
    HistoryAt(rs, mode, w, order, m);
    assert CommandAt(rs, mode, w, order, h, meets, decode, m);
    if !meets(m).Fails? {
      assert Stores(rs, order, h, m, name);
      RegisterStored(rs, order, h, k, name);
      var sc := ScopeAt(rs, order, h[..k], own);
      if meets(m).Satisfied? {
        ReadGuardFields(name, rs[order[m]].sensitive, sc, decode, fl);
      } else if mode == Plan {
        ReadUnknown(name, field, sc, fl);
      }
    }
  }

  lemma ReadUnknown(name: string, field: string, sc: Scope, fl: Floats)
    requires sc.registers.Some? && name in sc.registers.value && sc.registers.value[name] == EvalVal(None, false)
    ensures Eval(Register(name, field), sc, fl) == Ok(EvalVal(None, false))
  {
  }
}
