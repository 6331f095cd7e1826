/** Three-valued evaluation with sensitivity flags. */
module Evaluation {
  import opened Wrappers
  import opened Text
  import opened Syntax
  import opened Interpolation

  /** Maps are association lists in key order, the order the evaluator visits them. */
  datatype Value =
    | VNull
    | VBool(flag: bool)
    | VInt(number: int)
    | VFloat(float: string)
    | VStr(str: string)
    | VList(items: seq<Value>)
    | VMap(entries: seq<Entry>)

  datatype Entry = Entry(key: string, value: Value)

  /** What floating point does: any comparison and any formatting will do. */
  datatype Floats = Floats(cmp: (Value, CmpOp, Value) -> bool, show: string -> string)

  /** `val` is None for Unknown. */
  datatype EvalVal = EvalVal(val: Option<Value>, sensitive: bool)

  type Evaluated = Result<EvalVal, ExprError>

  type Bindings = map<string, EvalVal>

  datatype Scope = Scope(
    vars: Option<Bindings>,
    facts: Option<map<string, Value>>,
    registers: Option<Bindings>,
    item: Option<EvalVal>,
    result: Option<Bindings>,
    template: Option<Bindings>)

  function Known(v: Value): EvalVal { EvalVal(Some(v), false) }

  function Get(entries: seq<Entry>, key: string): Option<Value> {
    if entries == [] then None
    else if entries[0].key == key then Some(entries[0].value)
    else Get(entries[1..], key)
  }

  // ---------------------------------------------------------------- comparison

  predicate IsNumber(v: Value) { v.VInt? || v.VFloat? }

  function EqValue(x: Value, y: Value, fl: Floats): Option<bool> {
    if x.VNull? && y.VNull? then Some(true)
    else if x.VBool? && y.VBool? then Some(x.flag == y.flag)
    else if x.VStr? && y.VStr? then Some(x.str == y.str)
    else if x.VInt? && y.VInt? then Some(x.number == y.number)
    else if IsNumber(x) && IsNumber(y) then Some(fl.cmp(x, Eq, y))
    else None
  }

  function OrdInt(a: int, op: CmpOp, b: int): bool {
    match op
    case Lt => a < b
    case Le => a <= b
    case Gt => a > b
    case Ge => a >= b
    case Eq => a == b
    case Ne => a != b
  }

  function OrdStr(a: string, op: CmpOp, b: string): bool {
    match op
    case Lt => LexLess(a, b)
    case Le => !LexLess(b, a)
    case Gt => LexLess(b, a)
    case Ge => !LexLess(a, b)
    case Eq => a == b
    case Ne => a != b
  }

  function Compare(x: Value, op: CmpOp, y: Value, fl: Floats): Result<bool, ExprError> {
    if op == Eq || op == Ne then
      match EqValue(x, y, fl)
      case Some(b) => Ok(if op == Eq then b else !b)
      case None => Err(NotComparable)
    else if x.VInt? && y.VInt? then Ok(OrdInt(x.number, op, y.number))
    else if IsNumber(x) && IsNumber(y) then Ok(fl.cmp(x, op, y))
    else if x.VStr? && y.VStr? then Ok(OrdStr(x.str, op, y.str))
    else Err(NotOrdered)
  }

  // ---------------------------------------------------------------- evaluation

  function CompleteKey(field: string): Option<string> {
    if field == "stdout" then Some("stdout_complete")
    else if field == "stderr" then Some("stderr_complete")
    else None
  }

  function RegisterField(v: EvalVal, field: string): Evaluated {
    match v.val
    case None => Ok(EvalVal(None, v.sensitive))
    case Some(VMap(m)) =>
      if CompleteKey(field).Some? && Get(m, CompleteKey(field).value) == Some(VBool(false)) then Err(Incomplete)
      else
        (match Get(m, field)
         case Some(fv) => Ok(EvalVal(Some(fv), v.sensitive))
         case None => Err(UnknownField))
    case Some(_) => Err(NotACommandResult)
  }

  function ReadResult(res: Bindings, field: string): Evaluated {
    var key := CompleteKey(field);
    if key.Some? && key.value in res && res[key.value].val == Some(VBool(false)) then Err(Incomplete)
    else if field in res then Ok(res[field])
    else Err(UnknownField)
  }

  function ReadBinding(b: Option<Bindings>, name: string): Evaluated {
    match b
    case None => Err(NotAvailable)
    case Some(m) => if name in m then Ok(m[name]) else Err(Undefined)
  }

  function Eval(e: Expr, sc: Scope, fl: Floats): Evaluated
    decreases e, 1
  {
    match e
    case Or(a, b) => EvalJunction(true, a, b, e, sc, fl)
    case And(a, b) => EvalJunction(false, a, b, e, sc, fl)
    case Not(a) =>
      var v :- Eval(a, sc, fl);
      (match v.val
       case None => Ok(v)
       case Some(VBool(b)) => Ok(EvalVal(Some(VBool(!b)), v.sensitive))
       case Some(_) => Err(BooleanRequired))
    case Cmp(a, op, b) =>
      var va :- Eval(a, sc, fl);
      var vb :- Eval(b, sc, fl);
      var sensitive := va.sensitive || vb.sensitive;
      if va.val.None? || vb.val.None? then Ok(EvalVal(None, sensitive))
      else
        var r :- Compare(va.val.value, op, vb.val.value, fl);
        Ok(EvalVal(Some(VBool(r)), sensitive))
    case Var(name) => ReadBinding(sc.vars, name)
    case Fact(path) =>
      (match sc.facts
       case None => Err(NotAvailable)
       case Some(m) =>
         var joined := Join(path, ".");
         if joined in m then Ok(Known(m[joined])) else Err(Undefined))
    case Register(name, field) =>
      var v :- ReadBinding(sc.registers, name);
      RegisterField(v, field)
    case Item => if sc.item.Some? then Ok(sc.item.value) else Err(NotAvailable)
    case ResultField(field) =>
      if sc.result.Some? then ReadResult(sc.result.value, field) else Err(NotAvailable)
    case TemplateVar(name) => ReadBinding(sc.template, name)
    case Str(s) => Ok(Known(VStr(s)))
    case Int(i) => Ok(Known(VInt(i)))
    case Float(f) => Ok(Known(VFloat(f)))
    case Bool(b) => Ok(Known(VBool(b)))
    case Null => Ok(Known(VNull))
  }

  /** `a || b` (deciding value true) and `a && b` (deciding value false): the left operand
      decides alone, Unknown on the left still looks at the right. */
  function EvalJunction(deciding: bool, a: Expr, b: Expr, ghost whole: Expr, sc: Scope, fl: Floats): Evaluated
    requires a < whole && b < whole
    decreases whole, 0
  {
    var va :- Eval(a, sc, fl);
    if va.val.Some? && !va.val.value.VBool? then Err(BooleanRequired)
    else if va.val == Some(VBool(deciding)) then Ok(va)
    else
      var vb :- Eval(b, sc, fl);
      var sensitive := va.sensitive || vb.sensitive;
      if vb.val.Some? && !vb.val.value.VBool? then Err(BooleanRequired)
      else if va.val.None? && vb.val != Some(VBool(deciding)) then Ok(EvalVal(None, sensitive))
      else Ok(EvalVal(vb.val, sensitive))
  }

  /** A `when` must come out boolean or Unknown. */
  function EvalBoolean(e: Expr, sc: Scope, fl: Floats): Evaluated {
    var v :- Eval(e, sc, fl);
    if v.val.None? || v.val.value.VBool? then Ok(v) else Err(BooleanRequired)
  }

  // ------------------------------------------------------------- interpolation

  function ScalarString(v: Value, fl: Floats): Option<string> {
    match v
    case VNull => Some("null")
    case VBool(b) => Some(if b then "true" else "false")
    case VInt(i) => Some(if i < 0 then "-" + Decimal(-i) else Decimal(i))
    case VFloat(f) => Some(fl.show(f))
    case VStr(s) => Some(s)
    case VList(_) => None
    case VMap(_) => None
  }

  /** The text of the remaining segments behind `out`. */
  function EvalSegments(segs: seq<Segment>, out: string, sensitive: bool, sc: Scope, fl: Floats): Evaluated
    decreases |segs|
  {
    if segs == [] then Ok(EvalVal(Some(VStr(out)), sensitive))
    else
      match segs[0]
      case Literal(l) => EvalSegments(segs[1..], out + l, sensitive, sc, fl)
      case Ex(e) =>
        var v :- Eval(e, sc, fl);
        var s := sensitive || v.sensitive;
        if v.val.None? then Ok(EvalVal(None, s))
        else
          match ScalarString(v.val.value, fl)
          case Some(text) => EvalSegments(segs[1..], out + text, s, sc, fl)
          case None => Err(NotScalar)
  }

  /** A text that is one interpolation keeps the expression's type. */
  function EvalInterpolated(s: string, sc: Scope, fl: Floats): Evaluated {
    var segs :- SplitInterpolation(s);
    if |segs| == 1 && segs[0].Ex? then Eval(segs[0].expr, sc, fl)
    else EvalSegments(segs, "", false, sc, fl)
  }

  function EvalValue(v: Value, sc: Scope, fl: Floats): Evaluated
    decreases v
  {
    match v
    case VStr(s) => EvalInterpolated(s, sc, fl)
    case VList(items) => EvalItems(items, [], false, sc, fl)
    case VMap(entries) => EvalEntries(entries, [], false, sc, fl)
    case _ => Ok(Known(v))
  }

  function EvalItems(items: seq<Value>, out: seq<Value>, sensitive: bool, sc: Scope, fl: Floats): Evaluated
    decreases items
  {
    if items == [] then Ok(EvalVal(Some(VList(out)), sensitive))
    else
      var ev :- EvalValue(items[0], sc, fl);
      var s := sensitive || ev.sensitive;
      if ev.val.None? then Ok(EvalVal(None, s))
      else EvalItems(items[1..], out + [ev.val.value], s, sc, fl)
  }

  function EvalEntries(entries: seq<Entry>, out: seq<Entry>, sensitive: bool, sc: Scope, fl: Floats): Evaluated
    decreases entries
  {
    if entries == [] then Ok(EvalVal(Some(VMap(out)), sensitive))
    else
      var ev :- EvalValue(entries[0].value, sc, fl);
      var s := sensitive || ev.sensitive;
      if ev.val.None? then Ok(EvalVal(None, s))
      else EvalEntries(entries[1..], out + [Entry(entries[0].key, ev.val.value)], s, sc, fl)
  }

  // ----------------------------------------------------- the loops of the source

  method InterpolateText(s: string, sc: Scope, fl: Floats) returns (r: Evaluated)
    ensures r == EvalInterpolated(s, sc, fl)
  {
    hide SplitInterpolation, Eval, ScalarString;
    var split := SplitText(s);
    if split.Err? { return Err(split.error); }
    var segs := split.value;
    if |segs| == 1 && segs[0].Ex? {
      return Eval(segs[0].expr, sc, fl);
    }
    var out, sensitive := "", false;
    for i := 0 to |segs|
      invariant EvalSegments(segs, "", false, sc, fl) == EvalSegments(segs[i..], out, sensitive, sc, fl)
    {
      assert segs[i..][1..] == segs[i + 1..];
      match segs[i] {
        case Literal(l) => out := out + l;
        case Ex(e) =>
          var v := Eval(e, sc, fl);
          if v.Err? { return Err(v.error); }
          sensitive := sensitive || v.value.sensitive;
          if v.value.val.None? { return Ok(EvalVal(None, sensitive)); }
          var text := ScalarString(v.value.val.value, fl);
          if text.None? { return Err(NotScalar); }
          out := out + text.value;
      }
    }
    r := Ok(EvalVal(Some(VStr(out)), sensitive));
  }

  method InterpolateValue(v: Value, sc: Scope, fl: Floats) returns (r: Evaluated)
    ensures r == EvalValue(v, sc, fl)
    decreases v
  {
    hide EvalInterpolated;
    match v {
      case VStr(s) => r := InterpolateText(s, sc, fl);
      case VList(items) =>
        var out: seq<Value>, sensitive := [], false;
        for i := 0 to |items|
          invariant EvalValue(v, sc, fl) == EvalItems(items[i..], out, sensitive, sc, fl)
        {
          assert items[i..][1..] == items[i + 1..];
          var ev := InterpolateValue(items[i], sc, fl);
          if ev.Err? { return ev; }
          sensitive := sensitive || ev.value.sensitive;
          if ev.value.val.None? { return Ok(EvalVal(None, sensitive)); }
          out := out + [ev.value.val.value];
        }
        r := Ok(EvalVal(Some(VList(out)), sensitive));
      case VMap(entries) =>
        var out: seq<Entry>, sensitive := [], false;
        for i := 0 to |entries|
          invariant EvalValue(v, sc, fl) == EvalEntries(entries[i..], out, sensitive, sc, fl)
        {
          assert entries[i..][1..] == entries[i + 1..];
          var ev := InterpolateValue(entries[i].value, sc, fl);
          if ev.Err? { return ev; }
          sensitive := sensitive || ev.value.sensitive;
          if ev.value.val.None? { return Ok(EvalVal(None, sensitive)); }
          out := out + [Entry(entries[i].key, ev.value.val.value)];
        }
        r := Ok(EvalVal(Some(VMap(out)), sensitive));
      case _ => r := Ok(Known(v));
    }
  }
}
