/** Two guarantees about every expression, text and nested value: what is not flagged
    sensitive does not depend on sensitive values, and what is known in plan stays. */
module Soundness {
  import opened Wrappers
  import opened Syntax
  import opened Interpolation
  import opened Evaluation

  // --------------------------------------------------------- non-interference

  /** Same flag, and the same value unless flagged. */
  predicate LowVal(x: EvalVal, y: EvalVal) {
    x.sensitive == y.sensitive && (!x.sensitive ==> x == y)
  }

  ghost predicate LowBindings(a: Option<Bindings>, b: Option<Bindings>) {
    && a.Some? == b.Some?
    && (a.Some? ==>
          && a.value.Keys == b.value.Keys
          && forall k :: k in a.value ==> LowVal(a.value[k], b.value[k]))
  }

  ghost predicate LowScope(s: Scope, t: Scope) {
    && LowBindings(s.vars, t.vars)
    && s.facts == t.facts
    && LowBindings(s.registers, t.registers)
    && s.item.Some? == t.item.Some?
    && (s.item.Some? ==> LowVal(s.item.value, t.item.value))
    && LowBindings(s.result, t.result)
    && LowBindings(s.template, t.template)
  }

  /** A completeness flag is sensitive only if its stream is. */
  predicate StreamFlagged(res: Bindings, stream: string, complete: string) {
    stream in res && complete in res && res[complete].sensitive ==> res[stream].sensitive
  }

  predicate ResultFlagged(sc: Scope) {
    sc.result.Some? ==>
      && StreamFlagged(sc.result.value, "stdout", "stdout_complete")
      && StreamFlagged(sc.result.value, "stderr", "stderr_complete")
  }

  /** A result flagged public is the same on both sides. Whether the other side errs is not compared. */
  predicate Public(r: Evaluated, r': Evaluated) {
    r.Ok? && !r.value.sensitive ==> r' == r
  }

  lemma JunctionPublic(deciding: bool, a: Expr, b: Expr, e: Expr, s: Scope, t: Scope, fl: Floats)
    requires a < e && b < e
    requires Public(Eval(a, s, fl), Eval(a, t, fl)) && Public(Eval(b, s, fl), Eval(b, t, fl))
    ensures Public(EvalJunction(deciding, a, b, e, s, fl), EvalJunction(deciding, a, b, e, t, fl))
  {
    hide Eval;
  }

  lemma NotPublic(a: Expr, s: Scope, t: Scope, fl: Floats)
    requires Public(Eval(a, s, fl), Eval(a, t, fl))
    ensures Public(Eval(Not(a), s, fl), Eval(Not(a), t, fl))
  {
  }

  lemma CmpPublic(a: Expr, op: CmpOp, b: Expr, s: Scope, t: Scope, fl: Floats)
    requires Public(Eval(a, s, fl), Eval(a, t, fl)) && Public(Eval(b, s, fl), Eval(b, t, fl))
    ensures Public(Eval(Cmp(a, op, b), s, fl), Eval(Cmp(a, op, b), t, fl))
  {
    hide Compare;
  }

  /** A reference reads the same where it is public; a literal is the same everywhere. */
  lemma LeafPublic(e: Expr, s: Scope, t: Scope, fl: Floats)
    requires LowScope(s, t) && ResultFlagged(s) && !(e.Or? || e.And? || e.Not? || e.Cmp?)
    ensures Public(Eval(e, s, fl), Eval(e, t, fl))
  {
    hide Compare, EvalJunction;
  }

  lemma {:induction false} NonInterference(e: Expr, s: Scope, t: Scope, fl: Floats)
    requires LowScope(s, t) && ResultFlagged(s)
    ensures Public(Eval(e, s, fl), Eval(e, t, fl))
  {
    hide LowScope, ResultFlagged, EvalJunction, Public;
    match e {
      case Or(a, b) =>
        NonInterference(a, s, t, fl);
        NonInterference(b, s, t, fl);
        JunctionPublic(true, a, b, e, s, t, fl);
      case And(a, b) =>
        NonInterference(a, s, t, fl);
        NonInterference(b, s, t, fl);
        JunctionPublic(false, a, b, e, s, t, fl);
      case Not(a) =>
        NonInterference(a, s, t, fl);
        NotPublic(a, s, t, fl);
      case Cmp(a, op, b) =>
        NonInterference(a, s, t, fl);
        NonInterference(b, s, t, fl);
        CmpPublic(a, op, b, s, t, fl);
      case _ => LeafPublic(e, s, t, fl);
    }
  }

  lemma {:induction false} SegmentsNonInterference(
      segs: seq<Segment>, out: string, sensitive: bool, s: Scope, t: Scope, fl: Floats)
    requires LowScope(s, t) && ResultFlagged(s)
    ensures Public(EvalSegments(segs, out, sensitive, s, fl), EvalSegments(segs, out, sensitive, t, fl))
    ensures sensitive && EvalSegments(segs, out, sensitive, s, fl).Ok? ==>
      EvalSegments(segs, out, sensitive, s, fl).value.sensitive
    decreases |segs|
  {
    hide Eval, LowScope;
    if segs != [] {
      match segs[0] {
        case Literal(l) => SegmentsNonInterference(segs[1..], out + l, sensitive, s, t, fl);
        case Ex(e) =>
          NonInterference(e, s, t, fl);
          var v := Eval(e, s, fl);
          if v.Ok? && v.value.val.Some? && ScalarString(v.value.val.value, fl).Some? {
            SegmentsNonInterference(segs[1..], out + ScalarString(v.value.val.value, fl).value,
                                    sensitive || v.value.sensitive, s, t, fl);
          }
      }
    }
  }

  lemma TextNonInterference(text: string, s: Scope, t: Scope, fl: Floats)
    requires LowScope(s, t) && ResultFlagged(s)
    ensures Public(EvalInterpolated(text, s, fl), EvalInterpolated(text, t, fl))
  {
    hide Eval, LowScope, SplitInterpolation, EvalSegments;
    var split := SplitInterpolation(text);
    if split.Ok? {
      if |split.value| == 1 && split.value[0].Ex? {
        NonInterference(split.value[0].expr, s, t, fl);
      }
      SegmentsNonInterference(split.value, "", false, s, t, fl);
    }
  }

  lemma {:induction false} ValueNonInterference(v: Value, s: Scope, t: Scope, fl: Floats)
    requires LowScope(s, t) && ResultFlagged(s)
    ensures Public(EvalValue(v, s, fl), EvalValue(v, t, fl))
    decreases v
  {
    hide EvalInterpolated, LowScope, ResultFlagged;
    match v {
      case VStr(text) => TextNonInterference(text, s, t, fl);
      case VList(items) => ItemsNonInterference(items, [], false, s, t, fl);
      case VMap(entries) => EntriesNonInterference(entries, [], false, s, t, fl);
      case _ =>
    }
  }

  lemma {:induction false} ItemsNonInterference(
      items: seq<Value>, out: seq<Value>, sensitive: bool, s: Scope, t: Scope, fl: Floats)
    requires LowScope(s, t) && ResultFlagged(s)
    ensures Public(EvalItems(items, out, sensitive, s, fl), EvalItems(items, out, sensitive, t, fl))
    ensures sensitive && EvalItems(items, out, sensitive, s, fl).Ok? ==>
      EvalItems(items, out, sensitive, s, fl).value.sensitive
    decreases items
  {
    hide EvalValue, LowScope, ResultFlagged;
    if items != [] {
      ValueNonInterference(items[0], s, t, fl);
      var ev := EvalValue(items[0], s, fl);
      if ev.Ok? && ev.value.val.Some? {
        ItemsNonInterference(items[1..], out + [ev.value.val.value], sensitive || ev.value.sensitive, s, t, fl);
      }
    }
  }

  lemma {:induction false} EntriesNonInterference(
      entries: seq<Entry>, out: seq<Entry>, sensitive: bool, s: Scope, t: Scope, fl: Floats)
    requires LowScope(s, t) && ResultFlagged(s)
    ensures Public(EvalEntries(entries, out, sensitive, s, fl), EvalEntries(entries, out, sensitive, t, fl))
    ensures sensitive && EvalEntries(entries, out, sensitive, s, fl).Ok? ==>
      EvalEntries(entries, out, sensitive, s, fl).value.sensitive
    decreases entries
  {
    hide EvalValue, LowScope, ResultFlagged;
    if entries != [] {
      ValueNonInterference(entries[0].value, s, t, fl);
      var ev := EvalValue(entries[0].value, s, fl);
      if ev.Ok? && ev.value.val.Some? {
        EntriesNonInterference(entries[1..], out + [Entry(entries[0].key, ev.value.val.value)],
                               sensitive || ev.value.sensitive, s, t, fl);
      }
    }
  }

  /** No expression over `sc` tells two sensitive contents apart in a public result. */
  ghost predicate NonInterfering(sc: Scope, fl: Floats) {
    forall e, s, t :: LowScope(sc, s) && LowScope(sc, t) ==> Public(Eval(e, s, fl), Eval(e, t, fl))
  }

  /** It takes exactly that no completeness flag is sensitive while its stream is public. */
  lemma NonInterferenceExact(sc: Scope, fl: Floats)
    ensures NonInterfering(sc, fl) <==> ResultFlagged(sc)
  {
    if ResultFlagged(sc) {
      forall e, s, t | LowScope(sc, s) && LowScope(sc, t)
        ensures Public(Eval(e, s, fl), Eval(e, t, fl))
      {
        hide Eval;
        NonInterference(e, s, t, fl);
      }
    } else if !StreamFlagged(sc.result.value, "stdout", "stdout_complete") {
      UnflaggedLeaks(sc, "stdout", "stdout_complete", fl);
    } else {
      UnflaggedLeaks(sc, "stderr", "stderr_complete", fl);
    }
  }

  /** Whether the public stream can be read tells the sensitive flag's value. */
  lemma UnflaggedLeaks(sc: Scope, stream: string, complete: string, fl: Floats)
    requires sc.result.Some? && CompleteKey(stream) == Some(complete) && stream != complete
    requires !StreamFlagged(sc.result.value, stream, complete)
    ensures !NonInterfering(sc, fl)
  {
    var res := sc.result.value;
    var yes := sc.(result := Some(res[complete := EvalVal(Some(VBool(true)), true)]));
    var no := sc.(result := Some(res[complete := EvalVal(Some(VBool(false)), true)]));
    assert LowScope(sc, yes) && LowScope(sc, no);
    var e := ResultField(stream);
    assert Eval(e, yes, fl) == Ok(res[stream]) && Eval(e, no, fl) == Err(Incomplete);
    assert !Public(Eval(e, yes, fl), Eval(e, no, fl));
  }

  // ------------------------------------------------------------ Unknown is sound

  /** `y` is `x` with an Unknown possibly replaced. */
  predicate Fills(x: EvalVal, y: EvalVal) { x.val.Some? ==> y.val == x.val }

  /** Names bound on both sides; a name may also be bound on one side only. */
  ghost predicate FillsBindings(a: Option<Bindings>, b: Option<Bindings>) {
    a.Some? && b.Some? ==> forall k :: k in a.value && k in b.value ==> Fills(a.value[k], b.value[k])
  }

  /** `t` is `s` with Unknowns replaced, and names added or not yet bound. */
  ghost predicate FillsScope(s: Scope, t: Scope) {
    && FillsBindings(s.vars, t.vars)
    && (s.facts.Some? && t.facts.Some? ==>
          forall k :: k in s.facts.value && k in t.facts.value ==> t.facts.value[k] == s.facts.value[k])
    && FillsBindings(s.registers, t.registers)
    && (s.item.Some? && t.item.Some? ==> Fills(s.item.value, t.item.value))
    && FillsBindings(s.result, t.result)
    && FillsBindings(s.template, t.template)
  }

  /** A definite value stays: the same value or an error, never another value or Unknown. */
  predicate Stays(r: Evaluated, r': Evaluated) {
    r.Ok? && r.value.val.Some? && r'.Ok? ==> r'.value.val == r.value.val
  }

  lemma JunctionStays(deciding: bool, a: Expr, b: Expr, e: Expr, s: Scope, t: Scope, fl: Floats)
    requires a < e && b < e
    requires Stays(Eval(a, s, fl), Eval(a, t, fl)) && Stays(Eval(b, s, fl), Eval(b, t, fl))
    ensures Stays(EvalJunction(deciding, a, b, e, s, fl), EvalJunction(deciding, a, b, e, t, fl))
  {
    hide Eval;
  }

  lemma {:induction false} UnknownSound(e: Expr, s: Scope, t: Scope, fl: Floats)
    requires FillsScope(s, t)
    ensures Stays(Eval(e, s, fl), Eval(e, t, fl))
  {
    match e {
      case Or(a, b) =>
        UnknownSound(a, s, t, fl);
        UnknownSound(b, s, t, fl);
        JunctionStays(true, a, b, e, s, t, fl);
      case And(a, b) =>
        UnknownSound(a, s, t, fl);
        UnknownSound(b, s, t, fl);
        JunctionStays(false, a, b, e, s, t, fl);
      case Not(a) => UnknownSound(a, s, t, fl);
      case Cmp(a, _, b) => UnknownSound(a, s, t, fl); UnknownSound(b, s, t, fl);
      case _ =>
    }
  }

  lemma {:induction false} SegmentsUnknownSound(
      segs: seq<Segment>, out: string, x: bool, y: bool, s: Scope, t: Scope, fl: Floats)
    requires FillsScope(s, t)
    ensures Stays(EvalSegments(segs, out, x, s, fl), EvalSegments(segs, out, y, t, fl))
    decreases |segs|
  {
    hide Eval, FillsScope;
    if segs != [] {
      match segs[0] {
        case Literal(l) => SegmentsUnknownSound(segs[1..], out + l, x, y, s, t, fl);
        case Ex(e) =>
          UnknownSound(e, s, t, fl);
          var v, w := Eval(e, s, fl), Eval(e, t, fl);
          if v.Ok? && w.Ok? && v.value.val.Some? && ScalarString(v.value.val.value, fl).Some? {
            SegmentsUnknownSound(segs[1..], out + ScalarString(v.value.val.value, fl).value,
                                 x || v.value.sensitive, y || w.value.sensitive, s, t, fl);
          }
      }
    }
  }

  lemma TextUnknownSound(text: string, s: Scope, t: Scope, fl: Floats)
    requires FillsScope(s, t)
    ensures Stays(EvalInterpolated(text, s, fl), EvalInterpolated(text, t, fl))
  {
    hide Eval, FillsScope, SplitInterpolation, EvalSegments;
    var split := SplitInterpolation(text);
    if split.Ok? {
      if |split.value| == 1 && split.value[0].Ex? {
        UnknownSound(split.value[0].expr, s, t, fl);
      }
      SegmentsUnknownSound(split.value, "", false, false, s, t, fl);
    }
  }

  lemma {:induction false} ValueUnknownSound(v: Value, s: Scope, t: Scope, fl: Floats)
    requires FillsScope(s, t)
    ensures Stays(EvalValue(v, s, fl), EvalValue(v, t, fl))
    decreases v
  {
    hide EvalInterpolated, FillsScope;
    match v {
      case VStr(text) => TextUnknownSound(text, s, t, fl);
      case VList(items) => ItemsUnknownSound(items, [], false, false, s, t, fl);
      case VMap(entries) => EntriesUnknownSound(entries, [], false, false, s, t, fl);
      case _ =>
    }
  }

  lemma {:induction false} ItemsUnknownSound(
      items: seq<Value>, out: seq<Value>, x: bool, y: bool, s: Scope, t: Scope, fl: Floats)
    requires FillsScope(s, t)
    ensures Stays(EvalItems(items, out, x, s, fl), EvalItems(items, out, y, t, fl))
    decreases items
  {
    hide EvalValue, FillsScope;
    if items != [] {
      ValueUnknownSound(items[0], s, t, fl);
      var v, w := EvalValue(items[0], s, fl), EvalValue(items[0], t, fl);
      if v.Ok? && w.Ok? && v.value.val.Some? {
        ItemsUnknownSound(items[1..], out + [v.value.val.value],
                          x || v.value.sensitive, y || w.value.sensitive, s, t, fl);
      }
    }
  }

  lemma {:induction false} EntriesUnknownSound(
      entries: seq<Entry>, out: seq<Entry>, x: bool, y: bool, s: Scope, t: Scope, fl: Floats)
    requires FillsScope(s, t)
    ensures Stays(EvalEntries(entries, out, x, s, fl), EvalEntries(entries, out, y, t, fl))
    decreases entries
  {
    hide EvalValue, FillsScope;
    if entries != [] {
      ValueUnknownSound(entries[0].value, s, t, fl);
      var v, w := EvalValue(entries[0].value, s, fl), EvalValue(entries[0].value, t, fl);
      if v.Ok? && w.Ok? && v.value.val.Some? {
        EntriesUnknownSound(entries[1..], out + [Entry(entries[0].key, v.value.val.value)],
                            x || v.value.sensitive, y || w.value.sensitive, s, t, fl);
      }
    }
  }

  /** A `when` decided in plan is decided the same way later, or is an error. */
  lemma WhenStays(e: Expr, s: Scope, t: Scope, fl: Floats)
    requires FillsScope(s, t)
    ensures Stays(EvalBoolean(e, s, fl), EvalBoolean(e, t, fl))
  {
    UnknownSound(e, s, t, fl);
  }

  /** The error cannot be dropped, and errors do not stay: `item && false` is false in plan
      and an error once the Unknown item is a number; `item && 5` is an error in plan and
      false once the item is false. */
  lemma ErrorsDoNotStay(fl: Floats)
    ensures exists e, s, t :: FillsScope(s, t) && Eval(e, s, fl) == Ok(Known(VBool(false))) && Eval(e, t, fl).Err?
    ensures exists e, s, t :: FillsScope(s, t) && Eval(e, s, fl).Err? && Eval(e, t, fl) == Ok(Known(VBool(false)))
  {
    var s := Scope(None, None, None, Some(EvalVal(None, false)), None, None);
    var t := s.(item := Some(Known(VInt(5))));
    var u := s.(item := Some(Known(VBool(false))));
    assert FillsScope(s, t) && FillsScope(s, u);
    assert Eval(And(Item, Bool(false)), s, fl) == Ok(Known(VBool(false)));
    assert Eval(And(Item, Bool(false)), t, fl).Err?;
    assert Eval(And(Item, Int(5)), s, fl).Err?;
    assert Eval(And(Item, Int(5)), u, fl) == Ok(Known(VBool(false)));
  }
}
