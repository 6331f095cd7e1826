/** What expressions, texts and nested values come out as, said without the evaluator: conditions as
    three degrees of truth and as classical logic, comparisons as orders, texts as concatenations. */
module Meaning {
  import opened Wrappers
  import opened Text
  import opened Syntax
  import opened Printing
  import opened Interpolation
  import opened Evaluation

  // ------------------------------------------------------------------- comparisons

  /** The texts agree up to `k`, where `a` ends or has the smaller character. */
  ghost predicate SplitsAt(a: string, b: string, k: nat) {
    k <= |a| && k < |b| && a[..k] == b[..k] && (k == |a| || a[k] < b[k])
  }

  lemma {:induction false} LexExact(a: string, b: string)
    ensures LexLess(a, b) <==> exists k: nat :: SplitsAt(a, b, k)
  {
    if a == "" || b == "" {
      assert b != "" ==> SplitsAt(a, b, 0);
    } else if a[0] == b[0] {
      LexExact(a[1..], b[1..]);
      if k: nat :| SplitsAt(a[1..], b[1..], k) {
        assert a == [a[0]] + a[1..] && b == [b[0]] + b[1..];
        assert SplitsAt(a, b, k + 1);
      }
      if k: nat :| SplitsAt(a, b, k) {
        assert k > 0 && a[1..][..k - 1] == a[..k][1..] && b[1..][..k - 1] == b[..k][1..];
        assert SplitsAt(a[1..], b[1..], k - 1);
      }
    } else {
      assert a[0] < b[0] ==> SplitsAt(a, b, 0);
      if k: nat :| SplitsAt(a, b, k) {
        FirstAgrees(a, b, k);
      }
    }
  }

  lemma FirstAgrees(a: string, b: string, k: nat)
    requires SplitsAt(a, b, k) && a != "" && b != ""
    ensures a[0] < b[0] || (a[0] == b[0] && k > 0)
  {
    assert k > 0 ==> a[0] == a[..k][0] && b[0] == b[..k][0];
  }

  /** The smaller of two integers, or of two texts in dictionary order. */
  ghost predicate Smaller(x: Value, y: Value) {
    || (x.VInt? && y.VInt? && x.number < y.number)
    || (x.VStr? && y.VStr? && exists k: nat :: SplitsAt(x.str, y.str, k))
  }

  /** What an operator says of values that are not floats. */
  ghost predicate Says(x: Value, op: CmpOp, y: Value) {
    match op
    case Eq => x == y
    case Ne => x != y
    case Lt => Smaller(x, y)
    case Gt => Smaller(y, x)
    case Le => Smaller(x, y) || x == y
    case Ge => Smaller(y, x) || x == y
  }

  predicate IsOrder(op: CmpOp) { op != Eq && op != Ne }

  /** Two numbers or two texts; for (in)equality also two booleans or two nulls. */
  predicate Comparable(x: Value, op: CmpOp, y: Value) {
    || (IsNumber(x) && IsNumber(y)) || (x.VStr? && y.VStr?)
    || (!IsOrder(op) && ((x.VBool? && y.VBool?) || (x.VNull? && y.VNull?)))
  }

  predicate FloatPair(x: Value, y: Value) { IsNumber(x) && IsNumber(y) && (x.VFloat? || y.VFloat?) }

  /** The six operators are equality, the order of the integers and of the texts, and what follows from
      these; a pair that cannot be compared is an error. */
  lemma ComparesAs(x: Value, op: CmpOp, y: Value, fl: Floats)
    ensures Compare(x, op, y, fl).Ok? <==> Comparable(x, op, y)
    ensures Comparable(x, op, y) && !FloatPair(x, y) ==> (Compare(x, op, y, fl).value <==> Says(x, op, y))
    ensures FloatPair(x, y) ==>
      (Compare(x, op, y, fl).value <==> if op == Ne then !fl.cmp(x, Eq, y) else fl.cmp(x, op, y))
    ensures !Comparable(x, op, y) ==> Compare(x, op, y, fl).error == if IsOrder(op) then NotOrdered else NotComparable
  {
    hide LexLess, SplitsAt;
    if x.VStr? && y.VStr? {
      LexExact(x.str, y.str);
      LexExact(y.str, x.str);
      LexTotal(x.str, y.str);
    }
  }

  /** A comparison looks at both sides: undecided when either is Unknown, flagged when either is. */
  lemma ComparisonMeans(a: Expr, op: CmpOp, b: Expr, sc: Scope, fl: Floats)
    ensures var x, y, r := Eval(a, sc, fl), Eval(b, sc, fl), Eval(Cmp(a, op, b), sc, fl);
      && (x.Err? ==> r == x)
      && (x.Ok? && y.Err? ==> r == y)
      && (x.Ok? && y.Ok? && (x.value.val.None? || y.value.val.None?) ==>
            r == Ok(EvalVal(None, x.value.sensitive || y.value.sensitive)))
      && (x.Ok? && y.Ok? && x.value.val.Some? && y.value.val.Some? ==>
            var v, w := x.value.val.value, y.value.val.value;
            && (r.Ok? <==> Comparable(v, op, w))
            && (r.Ok? ==> r.value.val.Some? && r.value.sensitive == (x.value.sensitive || y.value.sensitive))
            && (r.Ok? && !FloatPair(v, w) ==> r.value.val == Some(VBool(Says(v, op, w)))))
  {
    hide Compare, Smaller, Comparable;
    if Eval(a, sc, fl).Ok? && Eval(b, sc, fl).Ok? {
      var x, y := Eval(a, sc, fl).value.val, Eval(b, sc, fl).value.val;
      if x.Some? && y.Some? { ComparesAs(x.value, op, y.value, fl); }
    }
  }

  function Opposite(op: CmpOp): CmpOp {
    match op
    case Eq => Ne
    case Ne => Eq
    case Lt => Ge
    case Ge => Lt
    case Gt => Le
    case Le => Gt
  }

  /** On floats the opposite order is not the negation: neither need hold. */
  predicate FloatsDisagree(a: Expr, op: CmpOp, b: Expr, sc: Scope, fl: Floats) {
    var x, y := Eval(a, sc, fl), Eval(b, sc, fl);
    && x.Ok? && y.Ok? && x.value.val.Some? && y.value.val.Some? && IsOrder(op)
    && FloatPair(x.value.val.value, y.value.val.value)
    && (fl.cmp(x.value.val.value, op, y.value.val.value) <==> fl.cmp(x.value.val.value, Opposite(op), y.value.val.value))
  }

  /** `!(a < b)` is `a >= b`, errors, Unknown and flags included, but for floats. */
  lemma NegatedComparison(a: Expr, op: CmpOp, b: Expr, sc: Scope, fl: Floats)
    ensures Eval(Not(Cmp(a, op, b)), sc, fl) == Eval(Cmp(a, Opposite(op), b), sc, fl)
      <==> !FloatsDisagree(a, op, b, sc, fl)
  {
    var r := Eval(Cmp(a, op, b), sc, fl);
    assert r.Ok? && r.value.val.Some? && r.value.val.value.VBool? ==>
      Eval(Not(Cmp(a, op, b)), sc, fl) == Ok(EvalVal(Some(VBool(!r.value.val.value.flag)), r.value.sensitive));
    hide Compare, LexLess;
    if Eval(a, sc, fl).Ok? && Eval(b, sc, fl).Ok? {
      var x, y := Eval(a, sc, fl).value.val, Eval(b, sc, fl).value.val;
      if x.Some? && y.Some? { OppositeCompare(x.value, op, y.value, fl); }
    }
  }

  lemma OppositeCompare(x: Value, op: CmpOp, y: Value, fl: Floats)
    ensures Compare(x, op, y, fl).Err? ==> Compare(x, Opposite(op), y, fl) == Compare(x, op, y, fl)
    ensures Compare(x, op, y, fl).Ok? ==> Compare(x, Opposite(op), y, fl).Ok?
    ensures Compare(x, op, y, fl).Ok? ==>
      (Compare(x, Opposite(op), y, fl).value != Compare(x, op, y, fl).value <==>
         !(IsOrder(op) && FloatPair(x, y) && (fl.cmp(x, op, y) <==> fl.cmp(x, Opposite(op), y))))
  {
    hide LexLess;
  }

  // -------------------------------------------------------------------- conditions

  predicate IsAtom(e: Expr) { !(e.Or? || e.And? || e.Not?) }

  /** How true a condition is: 1 true, 0 undecided, -1 false; None when it is an error or no boolean.
      A connective is the greater, the lesser or the negative degree; a left operand that settles it
      hides what is wrong with the right one. */
  function Degree(e: Expr, sc: Scope, fl: Floats): Option<int> {
    match e
    case Not(a) => if Degree(a, sc, fl).Some? then Some(-Degree(a, sc, fl).value) else None
    case Or(a, b) => if Degree(a, sc, fl) == Some(1) then Some(1) else Greater(Degree(a, sc, fl), Degree(b, sc, fl))
    case And(a, b) => if Degree(a, sc, fl) == Some(-1) then Some(-1) else Lesser(Degree(a, sc, fl), Degree(b, sc, fl))
    case _ => DegreeOf(Eval(e, sc, fl))
  }

  function Greater(x: Option<int>, y: Option<int>): Option<int> {
    if x.None? || y.None? then None else if x.value < y.value then y else x
  }

  function Lesser(x: Option<int>, y: Option<int>): Option<int> {
    if x.None? || y.None? then None else if x.value < y.value then x else y
  }

  function DegreeOf(r: Evaluated): Option<int> {
    if r.Err? then None
    else if r.value.val.None? then Some(0)
    else if r.value.val == Some(VBool(true)) then Some(1)
    else if r.value.val == Some(VBool(false)) then Some(-1)
    else None
  }

  lemma JunctionDegree(deciding: bool, a: Expr, b: Expr, e: Expr, sc: Scope, fl: Floats)
    requires a < e && b < e
    ensures var x, y := DegreeOf(Eval(a, sc, fl)), DegreeOf(Eval(b, sc, fl));
      DegreeOf(EvalJunction(deciding, a, b, e, sc, fl)) ==
      if deciding then (if x == Some(1) then Some(1) else Greater(x, y))
      else if x == Some(-1) then Some(-1) else Lesser(x, y)
  {
    hide Eval;
  }

  lemma NotDegree(a: Expr, sc: Scope, fl: Floats)
    ensures var x := DegreeOf(Eval(a, sc, fl));
      DegreeOf(Eval(Not(a), sc, fl)) == if x.Some? then Some(-x.value) else None
  {
  }

  /** A condition comes out true, false or undecided exactly when its degree says so. */
  lemma {:induction false} DegreeExact(e: Expr, sc: Scope, fl: Floats)
    ensures DegreeOf(EvalBoolean(e, sc, fl)) == DegreeOf(Eval(e, sc, fl)) == Degree(e, sc, fl)
  {
    hide EvalJunction, DegreeOf, Greater, Lesser;
    assert DegreeOf(EvalBoolean(e, sc, fl)) == DegreeOf(Eval(e, sc, fl)) by { BooleanDegree(e, sc, fl); }
    match e {
      case Not(a) =>
        DegreeExact(a, sc, fl);
        NotDegree(a, sc, fl);
      case Or(a, b) =>
        DegreeExact(a, sc, fl);
        DegreeExact(b, sc, fl);
        JunctionDegree(true, a, b, e, sc, fl);
      case And(a, b) =>
        DegreeExact(a, sc, fl);
        DegreeExact(b, sc, fl);
        JunctionDegree(false, a, b, e, sc, fl);
      case _ =>
    }
  }

  lemma BooleanDegree(e: Expr, sc: Scope, fl: Floats)
    ensures DegreeOf(EvalBoolean(e, sc, fl)) == DegreeOf(Eval(e, sc, fl))
  {
    hide Eval;
  }

  /** The condition in classical logic, its atoms true or false as `holds` has it. */
  ghost predicate Classical(e: Expr, holds: Expr -> bool) {
    match e
    case Or(a, b) => Classical(a, holds) || Classical(b, holds)
    case And(a, b) => Classical(a, holds) && Classical(b, holds)
    case Not(a) => !Classical(a, holds)
    case _ => holds(e)
  }

  ghost predicate AtomIn(x: Expr, e: Expr) {
    match e
    case Or(a, b) => AtomIn(x, a) || AtomIn(x, b)
    case And(a, b) => AtomIn(x, a) || AtomIn(x, b)
    case Not(a) => AtomIn(x, a)
    case _ => x == e
  }

  /** `holds` has every decided atom as it came out. */
  ghost predicate Agrees(e: Expr, holds: Expr -> bool, sc: Scope, fl: Floats) {
    forall x :: AtomIn(x, e) ==> (Degree(x, sc, fl) == Some(1) ==> holds(x)) && (Degree(x, sc, fl) == Some(-1) ==> !holds(x))
  }

  ghost predicate AllDecided(e: Expr, sc: Scope, fl: Floats) {
    forall x :: AtomIn(x, e) ==> Degree(x, sc, fl) == Some(1) || Degree(x, sc, fl) == Some(-1)
  }

  /** A decided condition is what classical logic makes of its atoms, whatever the undecided ones are and
      the ones not looked at; and with every atom decided the condition is. */
  lemma {:induction false} DecidedClassically(e: Expr, holds: Expr -> bool, sc: Scope, fl: Floats)
    requires Agrees(e, holds, sc, fl)
    ensures Degree(e, sc, fl) == Some(1) ==> Classical(e, holds)
    ensures Degree(e, sc, fl) == Some(-1) ==> !Classical(e, holds)
    ensures AllDecided(e, sc, fl) ==> Degree(e, sc, fl) == Some(if Classical(e, holds) then 1 else -1)
  {
    hide Eval;
    match e {
      case Or(a, b) =>
        DecidedClassically(a, holds, sc, fl);
        DecidedClassically(b, holds, sc, fl);
        DegreeRange(a, sc, fl);
        DegreeRange(b, sc, fl);
      case And(a, b) =>
        DecidedClassically(a, holds, sc, fl);
        DecidedClassically(b, holds, sc, fl);
        DegreeRange(a, sc, fl);
        DegreeRange(b, sc, fl);
      case Not(a) => DecidedClassically(a, holds, sc, fl);
      case _ => assert AtomIn(e, e);
    }
  }

  lemma {:induction false} DegreeRange(e: Expr, sc: Scope, fl: Floats)
    ensures Degree(e, sc, fl).Some? ==> Degree(e, sc, fl).value in {-1, 0, 1}
  {
    DegreeExact(e, sc, fl);
  }

  /** The laws of De Morgan and of double negation, errors, Unknown and flags included. */
  lemma DeMorgan(a: Expr, b: Expr, sc: Scope, fl: Floats)
    ensures Eval(Not(And(a, b)), sc, fl) == Eval(Or(Not(a), Not(b)), sc, fl)
    ensures Eval(Not(Or(a, b)), sc, fl) == Eval(And(Not(a), Not(b)), sc, fl)
    ensures Eval(Not(Not(a)), sc, fl) == EvalBoolean(a, sc, fl)
  {
    hide EvalJunction;
    NotMeans(a, sc, fl);
    NotMeans(b, sc, fl);
    NotMeans(Not(a), sc, fl);
    NotMeans(And(a, b), sc, fl);
    NotMeans(Or(a, b), sc, fl);
    JunctionDual(false, a, b, And(a, b), Or(Not(a), Not(b)), sc, fl);
    JunctionDual(true, a, b, Or(a, b), And(Not(a), Not(b)), sc, fl);
  }

  lemma JunctionDual(deciding: bool, a: Expr, b: Expr, e: Expr, e': Expr, sc: Scope, fl: Floats)
    requires a < e && b < e && Not(a) < e' && Not(b) < e'
    ensures EvalJunction(!deciding, Not(a), Not(b), e', sc, fl) == Negated(EvalJunction(deciding, a, b, e, sc, fl))
  {
    NotMeans(a, sc, fl);
    NotMeans(b, sc, fl);
    hide Eval;
  }

  function Negated(x: Evaluated): Evaluated {
    if x.Err? || x.value.val.None? then x
    else if x.value.val.value.VBool? then Ok(EvalVal(Some(VBool(!x.value.val.value.flag)), x.value.sensitive))
    else Err(BooleanRequired)
  }

  lemma NotMeans(a: Expr, sc: Scope, fl: Floats)
    ensures Eval(Not(a), sc, fl) == Negated(Eval(a, sc, fl))
  {
  }

  // --------------------------------------------------------------- references, flags

  function Table(word: string, sc: Scope): Option<Bindings> { if word == "vars" then sc.vars else sc.template }

  /** A dotted reference reads the table of its first word under its second. */
  lemma ReferenceReads(name: string, word: string, sc: Scope, fl: Floats)
    requires IsName(name) && word in {"vars", "template"}
    ensures var e := ResolveRef(Join([word, name], "."));
      && e.Ok?
      && (Eval(e.value, sc, fl).Ok? <==> Table(word, sc).Some? && name in Table(word, sc).value)
      && (Eval(e.value, sc, fl).Ok? ==> Eval(e.value, sc, fl).value == Table(word, sc).value[name])
      && (Table(word, sc).None? ==> Eval(e.value, sc, fl) == Err(NotAvailable))
      && (Table(word, sc).Some? && name !in Table(word, sc).value ==> Eval(e.value, sc, fl) == Err(Undefined))
  {
    hide ResolveRef;
    assert |"vars"| != |"template"|;
    var e := if word == "vars" then Var(name) else TemplateVar(name);
    assert RefParts(e) == [word, name];
    ResolvePrinted(e);
  }

  lemma FactReads(path: seq<string>, sc: Scope, fl: Floats)
    requires path != [] && forall p :: p in path ==> IsName(p)
    ensures ResolveRef(Join(["facts"] + path, ".")) == Ok(Fact(path))
    ensures var r := Eval(Fact(path), sc, fl);
      && (r.Ok? <==> sc.facts.Some? && Join(path, ".") in sc.facts.value)
      && (r.Ok? ==> r.value == Known(sc.facts.value[Join(path, ".")]))
    ensures ResolveRef("item") == Ok(Item) && (Eval(Item, sc, fl).Ok? <==> sc.item.Some?)
    ensures sc.item.Some? ==> Eval(Item, sc, fl).value == sc.item.value
  {
    hide ResolveRef;
    ResolvePrinted(Fact(path));
    ResolvePrinted(Item);
    assert RefText(Item) == "item";
  }

  /** The first entry under a key. */
  predicate EntryAt(m: seq<Entry>, key: string, k: nat) {
    k < |m| && m[k].key == key && forall j :: 0 <= j < k ==> m[j].key != key
  }

  lemma {:induction false} GetExact(m: seq<Entry>, key: string)
    ensures Get(m, key).Some? <==> exists k: nat :: EntryAt(m, key, k)
    ensures forall k: nat :: EntryAt(m, key, k) ==> Get(m, key) == Some(m[k].value)
  {
    if m != [] {
      GetExact(m[1..], key);
      if m[0].key == key {
        assert EntryAt(m, key, 0);
      } else {
        forall k: nat
          ensures EntryAt(m, key, k) <==> k > 0 && EntryAt(m[1..], key, k - 1)
        {
        }
        if k: nat :| EntryAt(m[1..], key, k) { assert EntryAt(m, key, k + 1); }
      }
    }
  }

  /** The map says that the stream `field` is incomplete. */
  ghost predicate SaysIncomplete(m: seq<Entry>, field: string) {
    exists k: nat ::
      && field in {"stdout", "stderr"}
      && EntryAt(m, field + "_complete", k) && m[k].value == VBool(false)
  }

  /** What a field of a register reads as: Unknown of a register not known yet, an error for a stream that
      is not complete, and otherwise its entry. */
  lemma FieldReads(name: string, field: string, sc: Scope, fl: Floats)
    requires sc.registers.Some? && name in sc.registers.value
    ensures var r, v := Eval(Register(name, field), sc, fl), sc.registers.value[name];
      && (v.val.None? ==> r == Ok(v))
      && (v.val.Some? && v.val.value.VMap? ==>
            var m := v.val.value.entries;
            && (SaysIncomplete(m, field) ==> r == Err(Incomplete))
            && (!SaysIncomplete(m, field) && (forall k: nat :: !EntryAt(m, field, k)) ==> r == Err(UnknownField))
            && (!SaysIncomplete(m, field) ==>
                  forall k: nat :: EntryAt(m, field, k) ==> r == Ok(EvalVal(Some(m[k].value), v.sensitive))))
      && (v.val.Some? && !v.val.value.VMap? ==> r == Err(NotACommandResult))
  {
    var v := sc.registers.value[name];
    if v.val.Some? && v.val.value.VMap? {
      var m := v.val.value.entries;
      GetExact(m, field);
      GetExact(m, field + "_complete");
      assert "stdout" + "_complete" == "stdout_complete" && "stderr" + "_complete" == "stderr_complete";
    }
  }

  /** A reference or literal the condition mentions, in its comparisons too. */
  ghost predicate LeafIn(x: Expr, e: Expr) {
    match e
    case Or(a, b) => LeafIn(x, a) || LeafIn(x, b)
    case And(a, b) => LeafIn(x, a) || LeafIn(x, b)
    case Not(a) => LeafIn(x, a)
    case Cmp(a, _, b) => LeafIn(x, a) || LeafIn(x, b)
    case _ => x == e
  }

  ghost predicate Flagged(r: Evaluated) { r.Ok? && r.value.sensitive }

  lemma JunctionFlag(deciding: bool, a: Expr, b: Expr, e: Expr, sc: Scope, fl: Floats)
    requires a < e && b < e
    ensures Flagged(EvalJunction(deciding, a, b, e, sc, fl)) ==> Flagged(Eval(a, sc, fl)) || Flagged(Eval(b, sc, fl))
  {
    hide Eval;
  }

  /** A flag comes from a flagged reference. */
  lemma {:induction false} FlagComesFrom(e: Expr, sc: Scope, fl: Floats)
    ensures Flagged(Eval(e, sc, fl)) ==> exists x :: LeafIn(x, e) && IsRef(x) && Flagged(Eval(x, sc, fl))
  {
    hide Compare, EvalJunction;
    match e {
      case Or(a, b) =>
        FlagComesFrom(a, sc, fl);
        FlagComesFrom(b, sc, fl);
        JunctionFlag(true, a, b, e, sc, fl);
      case And(a, b) =>
        FlagComesFrom(a, sc, fl);
        FlagComesFrom(b, sc, fl);
        JunctionFlag(false, a, b, e, sc, fl);
      case Not(a) => FlagComesFrom(a, sc, fl);
      case Cmp(a, _, b) =>
        FlagComesFrom(a, sc, fl);
        FlagComesFrom(b, sc, fl);
      case _ => assert LeafIn(e, e);
    }
  }

  // ------------------------------------------------------------------ texts, values

  predicate Gives(p: Evaluated) { p.Ok? && p.value.val.Some? }

  /** How many of these give a value before the first that does not. */
  function Run(ps: seq<Evaluated>): (n: nat)
    ensures n <= |ps| && (n < |ps| ==> !Gives(ps[n]))
    ensures forall i :: 0 <= i < n ==> Gives(ps[i])
  {
    if ps != [] && Gives(ps[0]) then 1 + Run(ps[1..]) else 0
  }

  ghost predicate AnyFlagged(ps: seq<Evaluated>, n: nat)
    requires n <= |ps|
  {
    exists i :: 0 <= i < n && Flagged(ps[i])
  }

  predicate AllGive(ps: seq<Evaluated>) { forall i :: 0 <= i < |ps| ==> Gives(ps[i]) }

  function Values(ps: seq<Evaluated>): seq<Value>
    requires AllGive(ps)
  {
    seq(|ps|, i requires 0 <= i < |ps| => ps[i].value.val.value)
  }

  /** `r` is the whole made of the parts, flagged when any part is; or the first error, or undecided from
      the first Unknown part on, whichever comes first. */
  ghost predicate Gathers(ps: seq<Evaluated>, whole: seq<Value> -> Value, r: Evaluated) {
    var n := Run(ps);
    if n == |ps| then r == Ok(EvalVal(Some(whole(Values(ps))), AnyFlagged(ps, n)))
    else if ps[n].Err? then r == Err(ps[n].error)
    else r == Ok(EvalVal(None, AnyFlagged(ps, n + 1)))
  }

  /** What a segment contributes: its literal, the text of its expression's scalar, or what went wrong. */
  function Piece(seg: Segment, sc: Scope, fl: Floats): Evaluated {
    match seg
    case Literal(l) => Ok(Known(VStr(l)))
    case Ex(e) =>
      var v :- Eval(e, sc, fl);
      if v.val.None? then Ok(v)
      else if ScalarString(v.val.value, fl).Some? then
        Ok(EvalVal(Some(VStr(ScalarString(v.val.value, fl).value)), v.sensitive))
      else Err(NotScalar)
  }

  function Pieces(segs: seq<Segment>, sc: Scope, fl: Floats): (ps: seq<Evaluated>)
    ensures |ps| == |segs| && forall i :: 0 <= i < |segs| ==> ps[i] == Piece(segs[i], sc, fl)
  {
    seq(|segs|, i requires 0 <= i < |segs| => Piece(segs[i], sc, fl))
  }

  /** The texts one behind the other. */
  function Concatenated(vs: seq<Value>): string {
    if vs == [] then ""
    else Concatenated(vs[..|vs| - 1]) + if vs[|vs| - 1].VStr? then vs[|vs| - 1].str else ""
  }

  function TextOf(vs: seq<Value>): Value { VStr(Concatenated(vs)) }

  /** A part that gives a value, behind `i` that do. */
  lemma OneMore(ps: seq<Evaluated>, i: nat)
    requires i < |ps| && i <= Run(ps) && Gives(ps[i])
    ensures i + 1 <= Run(ps) && AllGive(ps[..i]) && AllGive(ps[..i + 1])
    ensures Values(ps[..i + 1]) == Values(ps[..i]) + [ps[i].value.val.value]
    ensures AnyFlagged(ps, i + 1) <==> AnyFlagged(ps, i) || Flagged(ps[i])
  {
    assert i < Run(ps);
    assert AllGive(ps[..i + 1]);
    hide Run;
    FlaggedStep(ps, i);
    ValuesStep(ps, i);
  }

  lemma ValuesStep(ps: seq<Evaluated>, i: nat)
    requires i < |ps| && Gives(ps[i]) && AllGive(ps[..i + 1])
    ensures AllGive(ps[..i]) && Values(ps[..i + 1]) == Values(ps[..i]) + [ps[i].value.val.value]
  {
    assert ps[..i + 1] == ps[..i] + [ps[i]];
    assert forall k :: 0 <= k < i ==> ps[..i + 1][k] == ps[..i][k];
  }

  lemma FlaggedStep(ps: seq<Evaluated>, i: nat)
    requires i < |ps|
    ensures AnyFlagged(ps, i + 1) <==> AnyFlagged(ps, i) || Flagged(ps[i])
  {
    hide Flagged;
  }

  /** The part that ends it. */
  lemma StopsHere(ps: seq<Evaluated>, i: nat)
    requires i <= Run(ps) && (i == |ps| || !Gives(ps[i]))
    ensures Run(ps) == i
    ensures i == |ps| ==> ps[..i] == ps
    ensures i < |ps| ==> (AnyFlagged(ps, i + 1) <==> AnyFlagged(ps, i) || Flagged(ps[i]))
  {
    assert Run(ps) == i;
    hide Run, Gives, Flagged, AnyFlagged;
    if i < |ps| { FlaggedStep(ps, i); }
  }

  lemma {:induction false} SegmentsFrom(segs: seq<Segment>, i: nat, out: string, sensitive: bool, sc: Scope, fl: Floats)
    requires var ps := Pieces(segs, sc, fl);
      i <= Run(ps) && sensitive == AnyFlagged(ps, i) && out == Concatenated(Values(ps[..i]))
    ensures Gathers(Pieces(segs, sc, fl), TextOf, EvalSegments(segs[i..], out, sensitive, sc, fl))
    decreases |segs| - i
  {
    var ps := Pieces(segs, sc, fl);
    if i < |segs| { SegmentStep(segs[i..], out, sensitive, sc, fl); }
    hide Piece, Run, AnyFlagged;
    if i == |segs| || !Gives(ps[i]) {
      StopsHere(ps, i);
    } else {
      hide EvalSegments;
      OneMore(ps, i);
      var text := ps[i].value.val.value.str;
      assert Values(ps[..i + 1])[..i] == Values(ps[..i]);
      assert segs[i..][1..] == segs[i + 1..];
      SegmentsFrom(segs, i + 1, out + text, sensitive || ps[i].value.sensitive, sc, fl);
    }
  }

  /** A text with segments is the literals and the scalars' texts one behind the other. */
  lemma SegmentsMean(segs: seq<Segment>, sc: Scope, fl: Floats)
    ensures Gathers(Pieces(segs, sc, fl), TextOf, EvalSegments(segs, "", false, sc, fl))
  {
    hide EvalSegments;
    assert segs[0..] == segs;
    SegmentsFrom(segs, 0, "", false, sc, fl);
  }

  /** What `y` adds behind `x`. */
  function Behind(x: Evaluated, y: Evaluated): Evaluated {
    if !Gives(x) || y.Err? then (if Gives(x) then y else x)
    else
      Ok(EvalVal(if y.value.val.Some? then Some(TextOf([x.value.val.value, y.value.val.value])) else None,
                 x.value.sensitive || y.value.sensitive))
  }

  /** What is read so far. */
  function SoFar(out: string, sensitive: bool): Evaluated { Ok(EvalVal(Some(VStr(out)), sensitive)) }

  lemma SegmentStep(segs: seq<Segment>, out: string, sensitive: bool, sc: Scope, fl: Floats)
    requires segs != []
    ensures var p := Piece(segs[0], sc, fl);
      && (Gives(p) ==>
            && p.value.val.value.VStr?
            && EvalSegments(segs, out, sensitive, sc, fl) ==
               EvalSegments(segs[1..], out + p.value.val.value.str, sensitive || p.value.sensitive, sc, fl))
      && (!Gives(p) ==> EvalSegments(segs, out, sensitive, sc, fl) == Behind(SoFar(out, sensitive), p))
  {
    hide Eval, ScalarString, Concatenated;
  }

  lemma SoFarBehind(out: string, sensitive: bool, p: Evaluated)
    requires Gives(p) && p.value.val.value.VStr?
    ensures Behind(SoFar(out, sensitive), p) == SoFar(out + p.value.val.value.str, sensitive || p.value.sensitive)
  {
    TwoTexts(out, p.value.val.value.str);
  }

  /** Segments put their text behind what is read so far. */
  lemma {:induction false} SegmentsBehind(segs: seq<Segment>, out: string, sensitive: bool, sc: Scope, fl: Floats)
    ensures var r := EvalSegments(segs, "", false, sc, fl);
      && (Gives(r) ==> r.value.val.value.VStr?)
      && EvalSegments(segs, out, sensitive, sc, fl) == Behind(SoFar(out, sensitive), r)
    decreases |segs|
  {
    if segs == [] {
      TwoTexts(out, "");
      assert out + "" == out;
    } else {
      SegmentStep(segs, out, sensitive, sc, fl);
      SegmentStep(segs, "", false, sc, fl);
      var p := Piece(segs[0], sc, fl);
      hide EvalSegments, Piece;
      if Gives(p) {
        var text := p.value.val.value.str;
        SegmentsBehind(segs[1..], out + text, sensitive || p.value.sensitive, sc, fl);
        SegmentsBehind(segs[1..], "" + text, p.value.sensitive, sc, fl);
        SoFarBehind(out, sensitive, p);
        SoFarBehind("", false, p);
        assert "" + text == text;
        hide Behind, TextOf;
        BehindTwice(SoFar(out, sensitive), p, EvalSegments(segs[1..], "", false, sc, fl));
      }
    }
  }

  lemma TwoTexts(a: string, b: string)
    ensures TextOf([VStr(a), VStr(b)]) == VStr(a + b)
  {
    var both := [VStr(a), VStr(b)];
    assert both[..1] == [VStr(a)] && both[..1][..0] == [];
    assert Concatenated(both[..1]) == "" + a;
  }

  /** The text of two lists of segments is the first list's text in front of the second's. */
  lemma {:induction false} TextConcat(a: seq<Segment>, b: seq<Segment>, sc: Scope, fl: Floats)
    ensures EvalSegments(a + b, "", false, sc, fl) ==
      Behind(EvalSegments(a, "", false, sc, fl), EvalSegments(b, "", false, sc, fl))
    decreases |a|
  {
    SegmentsBehind(b, "", false, sc, fl);
    if a == [] {
      assert a + b == b;
    } else {
      assert (a + b)[1..] == a[1..] + b;
      TextConcat(a[1..], b, sc, fl);
      SegmentStep(a + b, "", false, sc, fl);
      SegmentStep(a, "", false, sc, fl);
      var p := Piece(a[0], sc, fl);
      hide EvalSegments, Piece;
      if Gives(p) {
        var text := p.value.val.value.str;
        SegmentsBehind(a[1..] + b, "" + text, p.value.sensitive, sc, fl);
        SegmentsBehind(a[1..], "" + text, p.value.sensitive, sc, fl);
        var x := SoFar("" + text, p.value.sensitive);
        hide Behind, TextOf;
        BehindTwice(x, EvalSegments(a[1..], "", false, sc, fl), EvalSegments(b, "", false, sc, fl));
      }
    }
  }

  lemma BehindTwice(x: Evaluated, y: Evaluated, z: Evaluated)
    requires forall r :: r in {x, y, z} && Gives(r) ==> r.value.val.value.VStr?
    ensures Behind(x, Behind(y, z)) == Behind(Behind(x, y), z)
  {
    hide Concatenated;
    if Gives(x) && Gives(y) && Gives(z) {
      var a, b, c := x.value.val.value.str, y.value.val.value.str, z.value.val.value.str;
      TwoTexts(a, b);
      TwoTexts(b, c);
      TwoTexts(a, b + c);
      TwoTexts(a + b, c);
      assert a + (b + c) == a + b + c;
    }
  }

  /** A text without expressions stands for itself, whatever is in scope. */
  lemma PlainText(t: string, sc: Scope, fl: Floats)
    ensures EvalInterpolated(Escape(t), sc, fl) == Ok(Known(VStr(t)))
  {
    hide SplitInterpolation, Escape;
    EscapeRoundTrip(t);
    var segs := [Literal(t)];
    assert "" + t == t && segs[1..] == [];
    assert EvalSegments(segs, "", false, sc, fl) == EvalSegments([], "" + t, false, sc, fl);
  }

  /** Any text: an error where it does not split, one expression's own value where it is that, and
      otherwise the text of its segments. */
  lemma TextMeans(s: string, sc: Scope, fl: Floats)
    ensures var split, r := SplitInterpolation(s), EvalInterpolated(s, sc, fl);
      && (split.Err? ==> r == Err(split.error))
      && (split.Ok? && |split.value| == 1 && split.value[0].Ex? ==> r == Eval(split.value[0].expr, sc, fl))
      && (split.Ok? && !(|split.value| == 1 && split.value[0].Ex?) ==> Gathers(Pieces(split.value, sc, fl), TextOf, r))
  {
    hide SplitInterpolation, EvalSegments, Gathers, Eval;
    var split := SplitInterpolation(s);
    if split.Ok? { SegmentsMean(split.value, sc, fl); }
  }

  /** `web-{{ facts.hostname }}` on a host of this name. */
  lemma HostText(name: string, sc: Scope, fl: Floats)
    requires sc.facts.Some? && "hostname" in sc.facts.value && sc.facts.value["hostname"] == VStr(name)
    ensures EvalInterpolated("web-{{ facts.hostname }}", sc, fl) == Ok(Known(VStr("web-" + name)))
  {
    var e := Fact(["hostname"]);
    HostSegments();
    WrittenHost();
    WrittenSplits([Literal("web-"), Ex(e)]);
    assert Eval(e, sc, fl) == Ok(Known(VStr(name))) by { assert Join(["hostname"], ".") == "hostname"; }
    LiteralThen("web-", e, name, sc, fl);
    hide SplitInterpolation, EvalSegments, Write, Eval;
  }

  /** A literal in front of one expression. */
  lemma LiteralThen(l: string, e: Expr, text: string, sc: Scope, fl: Floats)
    requires Eval(e, sc, fl) == Ok(Known(VStr(text)))
    ensures EvalSegments([Literal(l), Ex(e)], "", false, sc, fl) == Ok(Known(VStr(l + text)))
  {
    var segs := [Literal(l), Ex(e)];
    SegmentStep(segs, "", false, sc, fl);
    assert segs[1..] == [Ex(e)] && "" + l == l;
    SegmentStep([Ex(e)], l, false, sc, fl);
    assert EvalSegments([], l + text, false, sc, fl) == Ok(Known(VStr(l + text)));
    hide Eval, EvalSegments;
    assert [Ex(e)][1..] == [];
  }

  lemma HostSegments()
    ensures var segs := [Literal("web-"), Ex(Fact(["hostname"]))]; Normal(segs) && Separated(segs)
  {
    var segs := [Literal("web-"), Ex(Fact(["hostname"]))];
    assert Printable(Fact(["hostname"]));
    assert segs[1..] == [Ex(Fact(["hostname"]))] && segs[1..][1..] == [];
    assert Normal(segs[1..]) && Separated(segs[1..]);
  }

  lemma WrittenHost()
    ensures Write([Literal("web-"), Ex(Fact(["hostname"]))]) == "web-{{ facts.hostname }}"
  {
    hide Spell, Print;
    var segs := [Literal("web-"), Ex(Fact(["hostname"]))];
    assert segs[1..] == [Ex(Fact(["hostname"]))] && segs[1..][1..] == [];
    SpelledHost();
    PrintedHost();
  }

  lemma SpelledHost()
    ensures Spell("web-") == "web-"
  {
    assert Spell("b-") == "b-" && "eb-"[1..] == "b-" && "web-"[1..] == "eb-" && "b-"[1..] == "-" && "-"[1..] == "";
  }

  lemma PrintedHost()
    ensures Print(Fact(["hostname"])) == "facts.hostname "
  {
    var e := Fact(["hostname"]);
    assert RefText(e) == "facts.hostname" by {
      assert (["facts"] + ["hostname"])[1..] == ["hostname"];
    }
    PrintedRef(e);
    PrintAlike(e, 0, 4);
    hide RefText, PrintTokens;
    OneToken(TIdent("facts.hostname"));
  }

  lemma OneToken(t: Tok)
    ensures Render([t]) == Show(t) + " "
  {
    assert [t][1..] == [];
    assert Render([t]) == Show(t) + " " + "";
  }

  // The same for lists and maps.

  function Evaluations(items: seq<Value>, sc: Scope, fl: Floats): (ps: seq<Evaluated>)
    ensures |ps| == |items| && forall i :: 0 <= i < |items| ==> ps[i] == EvalValue(items[i], sc, fl)
  {
    seq(|items|, i requires 0 <= i < |items| => EvalValue(items[i], sc, fl))
  }

  function ListOf(vs: seq<Value>): Value { VList(vs) }

  lemma {:induction false} ItemsFrom(items: seq<Value>, i: nat, sensitive: bool, sc: Scope, fl: Floats)
    requires i <= Run(Evaluations(items, sc, fl)) && sensitive == AnyFlagged(Evaluations(items, sc, fl), i)
    ensures var ps := Evaluations(items, sc, fl);
      Gathers(ps, ListOf, EvalItems(items[i..], Values(ps[..i]), sensitive, sc, fl))
    decreases |items| - i
  {
    hide EvalValue, Run, AnyFlagged;
    var ps := Evaluations(items, sc, fl);
    if i == |items| || !Gives(ps[i]) {
      StopsHere(ps, i);
    } else {
      OneMore(ps, i);
      assert items[i..][1..] == items[i + 1..];
      ItemsFrom(items, i + 1, sensitive || ps[i].value.sensitive, sc, fl);
    }
  }

  function EntryEvaluations(entries: seq<Entry>, sc: Scope, fl: Floats): (ps: seq<Evaluated>)
    ensures |ps| == |entries| && forall i :: 0 <= i < |entries| ==> ps[i] == EvalValue(entries[i].value, sc, fl)
  {
    seq(|entries|, i requires 0 <= i < |entries| => EvalValue(entries[i].value, sc, fl))
  }

  /** Each key with its own value. */
  function Keyed(entries: seq<Entry>, vs: seq<Value>): (r: seq<Entry>)
    requires |vs| <= |entries|
  {
    seq(|vs|, i requires 0 <= i < |vs| => Entry(entries[i].key, vs[i]))
  }

  function MapOf(entries: seq<Entry>): seq<Value> -> Value {
    vs => if |vs| == |entries| then VMap(Keyed(entries, vs)) else VNull
  }

  lemma {:induction false} EntriesFrom(entries: seq<Entry>, i: nat, sensitive: bool, sc: Scope, fl: Floats)
    requires i <= Run(EntryEvaluations(entries, sc, fl)) && sensitive == AnyFlagged(EntryEvaluations(entries, sc, fl), i)
    ensures var ps := EntryEvaluations(entries, sc, fl);
      Gathers(ps, MapOf(entries), EvalEntries(entries[i..], Keyed(entries, Values(ps[..i])), sensitive, sc, fl))
    decreases |entries| - i
  {
    hide EvalValue, Run, AnyFlagged;
    var ps := EntryEvaluations(entries, sc, fl);
    if i == |entries| || !Gives(ps[i]) {
      StopsHere(ps, i);
    } else {
      OneMore(ps, i);
      assert entries[i..][1..] == entries[i + 1..];
      assert Keyed(entries, Values(ps[..i + 1])) ==
        Keyed(entries, Values(ps[..i])) + [Entry(entries[i].key, ps[i].value.val.value)];
      EntriesFrom(entries, i + 1, sensitive || ps[i].value.sensitive, sc, fl);
    }
  }

  /** A nested value keeps its shape: a list has the values of its items in their places, a map each key
      with its own value, and what is no text, list or map is itself. */
  lemma ValueMeans(v: Value, sc: Scope, fl: Floats)
    ensures var r := EvalValue(v, sc, fl);
      && (v.VStr? ==> r == EvalInterpolated(v.str, sc, fl))
      && (v.VList? ==> Gathers(Evaluations(v.items, sc, fl), ListOf, r))
      && (v.VMap? ==> Gathers(EntryEvaluations(v.entries, sc, fl), MapOf(v.entries), r))
      && (!v.VStr? && !v.VList? && !v.VMap? ==> r == Ok(Known(v)))
  {
    hide EvalItems, EvalEntries, EvalInterpolated, Gathers;
    match v {
      case VList(items) =>
        assert items[0..] == items;
        ItemsFrom(items, 0, false, sc, fl);
        assert Values([]) == [];
      case VMap(entries) =>
        assert entries[0..] == entries;
        EntriesFrom(entries, 0, false, sc, fl);
        assert Keyed(entries, Values([])) == [];
      case _ =>
    }
  }

  // ---------------------------------------------------------------------- scalars

  /** The text of a literal is its source, a negative number's that of its opposite behind a sign. */
  lemma ScalarMeans(e: Expr, sc: Scope, fl: Floats)
    requires e.Null? || e.Bool? || (e.Int? && 0 <= e.value <= MAX_INT)
    ensures var text := ScalarString(Eval(e, sc, fl).value.val.value, fl);
      && text.Some? && Print(e) == text.value + " " && ParseExpr(Print(e)) == Ok(e)
    ensures e.Int? && e.value > 0 ==> ScalarString(VInt(-e.value), fl) == Some("-" + ScalarString(VInt(e.value), fl).value)
  {
    hide ParseExpr;
    ParsePrint(e);
    assert |PrintTokens(e, 0)| == 1;
    OneToken(PrintTokens(e, 0)[0]);
    assert PrintTokens(e, 0) == [PrintTokens(e, 0)[0]];
  }
}
