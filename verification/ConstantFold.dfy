/**
 Constant folding at bind time: which expressions count as constant, and when replacing them
 by the literals they evaluate to preserves meaning on every row and in every state.
 */
module ConstantFold {

  /** Functions by how they depend on state: sequences and the random generator. */
  datatype Function = Pure(id: nat) | NextVal | GenRandomUuid | CurrVal

  datatype Alternative<V> = Alternative(cond: Expr<V>, val: Expr<V>)

  /** Bound expressions.  Operators are pure functions; inputs stand for properties, variables, parameters,
      paths, patterns, aggregates, subqueries, graphs and lambdas. */
  datatype Expr<V> =
    | Literal(value: V)
    | Input(id: nat)
    | Call(fn: Function, args: seq<Expr<V>>)
    | Case(alts: seq<Alternative<V>>, otherwise: Expr<V>)

  /** What the functions compute: total functions of their arguments and, where volatile, of the state. */
  datatype Meaning<!V, !S> = Meaning(
    pure: (nat, seq<V>) -> V,
    isTrue: V -> bool,
    next: (S, seq<V>) -> (V, S),
    uuid: S -> (V, S),
    curr: (S, seq<V>) -> V)

  datatype Result<V, S> = Result(value: V, state: S)

  datatype Results<V, S> = Results(values: seq<V>, state: S)

  // ---------------------------------------------------------------- evaluation

  function Eval<V, S>(m: Meaning<V, S>, e: Expr<V>, row: nat -> V, s: S): Result<V, S>
    decreases e, 1, 0
  {
    match e
    case Literal(v) => Result(v, s)
    case Input(id) => Result(row(id), s)
    case Call(fn, _) =>
      var r := EvalArgs(m, e, 0, row, s);
      Apply(m, fn, r.values, r.state)
    case Case(_, _) => EvalCase(m, e, 0, row, s)
  }

  function Apply<V, S>(m: Meaning<V, S>, fn: Function, args: seq<V>, s: S): Result<V, S> {
    match fn
    case Pure(id) => Result(m.pure(id, args), s)
    case NextVal => var r := m.next(s, args); Result(r.0, r.1)
    case GenRandomUuid => var r := m.uuid(s); Result(r.0, r.1)
    case CurrVal => Result(m.curr(s, args), s)
  }

  function EvalArgs<V, S>(m: Meaning<V, S>, e: Expr<V>, i: nat, row: nat -> V, s: S): Results<V, S>
    requires e.Call? && i <= |e.args|
    decreases e, 0, |e.args| - i
  {
    if i == |e.args| then Results([], s) else
    var a := Eval(m, e.args[i], row, s);
    var rest := EvalArgs(m, e, i + 1, row, a.state);
    Results([a.value] + rest.values, rest.state)
  }

  function EvalCase<V, S>(m: Meaning<V, S>, e: Expr<V>, i: nat, row: nat -> V, s: S): Result<V, S>
    requires e.Case? && i <= |e.alts|
    decreases e, 0, |e.alts| - i
  {
    if i == |e.alts| then Eval(m, e.otherwise, row, s) else
    var c := Eval(m, e.alts[i].cond, row, s);
    if m.isTrue(c.value) then Eval(m, e.alts[i].val, row, c.state) else EvalCase(m, e, i + 1, row, c.state)
  }

  // ---------------------------------------------------------------- constants

  /** `ConstantExpressionVisitor::isConstant`. */
  predicate IsConstant<V>(e: Expr<V>)
    decreases e, 1, 0
  {
    match e
    case Literal(_) => true
    case Input(_) => false
    case Call(fn, _) => !fn.NextVal? && !fn.GenRandomUuid? && ArgsConstant(e, 0)
    case Case(_, otherwise) => AltsConstant(e, 0) && IsConstant(otherwise)
  }

  predicate ArgsConstant<V>(e: Expr<V>, i: nat)
    requires e.Call? && i <= |e.args|
    decreases e, 0, |e.args| - i
  {
    i == |e.args| || (IsConstant(e.args[i]) && ArgsConstant(e, i + 1))
  }

  predicate AltsConstant<V>(e: Expr<V>, i: nat)
    requires e.Case? && i <= |e.alts|
    decreases e, 0, |e.alts| - i
  {
    i == |e.alts| || (IsConstant(e.alts[i].cond) && IsConstant(e.alts[i].val) && AltsConstant(e, i + 1))
  }

  predicate NeedFold<V>(e: Expr<V>) {
    !e.Literal? && IsConstant(e)
  }

  /** No constant subexpression reads the current value of a sequence. */
  predicate NoFrozenCurrVal<V>(e: Expr<V>)
    decreases e, 1, 0
  {
    match e
    case Literal(_) => true
    case Input(_) => true
    case Call(fn, _) => (fn.CurrVal? ==> !IsConstant(e)) && ArgsNoFrozen(e, 0)
    case Case(_, otherwise) => AltsNoFrozen(e, 0) && NoFrozenCurrVal(otherwise)
  }

  predicate ArgsNoFrozen<V>(e: Expr<V>, i: nat)
    requires e.Call? && i <= |e.args|
    decreases e, 0, |e.args| - i
  {
    i == |e.args| || (NoFrozenCurrVal(e.args[i]) && ArgsNoFrozen(e, i + 1))
  }

  predicate AltsNoFrozen<V>(e: Expr<V>, i: nat)
    requires e.Case? && i <= |e.alts|
    decreases e, 0, |e.alts| - i
  {
    i == |e.alts| || (NoFrozenCurrVal(e.alts[i].cond) && NoFrozenCurrVal(e.alts[i].val) && AltsNoFrozen(e, i + 1))
  }

  // ---------------------------------------------------------------- folding

  /** Binding folds bottom-up; the literal is what the constant evaluates to in the state at bind time. */
  function Fold<V, S>(m: Meaning<V, S>, e: Expr<V>, row: nat -> V, s: S): Expr<V>
    decreases e, 2, 0
  {
    var b := Rebuild(m, e, row, s);
    if NeedFold(b) then Literal(Eval(m, b, row, s).value) else b
  }

  /** The expression over its bound children. */
  function Rebuild<V, S>(m: Meaning<V, S>, e: Expr<V>, row: nat -> V, s: S): Expr<V>
    decreases e, 1, 0
  {
    match e
    case Literal(_) => e
    case Input(_) => e
    case Call(fn, _) => Call(fn, FoldArgs(m, e, 0, row, s))
    case Case(_, otherwise) => Case(FoldAlts(m, e, 0, row, s), Fold(m, otherwise, row, s))
  }

  function FoldArgs<V, S>(m: Meaning<V, S>, e: Expr<V>, i: nat, row: nat -> V, s: S): (r: seq<Expr<V>>)
    requires e.Call? && i <= |e.args|
    ensures |r| == |e.args| - i
    decreases e, 0, |e.args| - i
  {
    if i == |e.args| then [] else [Fold(m, e.args[i], row, s)] + FoldArgs(m, e, i + 1, row, s)
  }

  function FoldAlts<V, S>(m: Meaning<V, S>, e: Expr<V>, i: nat, row: nat -> V, s: S): (r: seq<Alternative<V>>)
    requires e.Case? && i <= |e.alts|
    ensures |r| == |e.alts| - i
    decreases e, 0, |e.alts| - i
  {
    if i == |e.alts| then []
    else [Alternative(Fold(m, e.alts[i].cond, row, s), Fold(m, e.alts[i].val, row, s))] + FoldAlts(m, e, i + 1, row, s)
  }

  // ---------------------------------------------------------------- what evaluation means

  /** The state in which argument k is evaluated: the earlier ones have been, from the left. */
  ghost function ArgState<V, S>(m: Meaning<V, S>, e: Expr<V>, k: nat, row: nat -> V, s: S): S
    requires e.Call? && k <= |e.args|
  {
    if k == 0 then s else Eval(m, e.args[k - 1], row, ArgState(m, e, k - 1, row, s)).state
  }

  /** The values of the arguments from i on, each in the state that those before it leave. */
  ghost predicate ArgValues<V, S>(m: Meaning<V, S>, e: Expr<V>, i: nat, row: nat -> V, s: S, values: seq<V>)
    requires e.Call? && i <= |e.args|
  {
    && |values| == |e.args| - i
    && forall k :: 0 <= k < |values| ==> values[k] == Eval(m, e.args[i + k], row, ArgState(m, e, i + k, row, s)).value
  }

  lemma ArgValuesCons<V, S>(m: Meaning<V, S>, e: Expr<V>, i: nat, row: nat -> V, s: S, rest: seq<V>)
    requires e.Call? && i < |e.args| && ArgValues(m, e, i + 1, row, s, rest)
    ensures ArgValues(m, e, i, row, s, [Eval(m, e.args[i], row, ArgState(m, e, i, row, s)).value] + rest)
  {
    hide Eval, ArgState;
    var all := [Eval(m, e.args[i], row, ArgState(m, e, i, row, s)).value] + rest;
    forall k | 0 <= k < |all| ensures all[k] == Eval(m, e.args[i + k], row, ArgState(m, e, i + k, row, s)).value {
      if k > 0 {
        assert all[k] == rest[k - 1] && i + 1 + (k - 1) == i + k;
      }
    }
  }

  lemma {:induction false} ArgsFrom<V, S>(m: Meaning<V, S>, e: Expr<V>, i: nat, row: nat -> V, s: S)
    requires e.Call? && i <= |e.args|
    ensures var r := EvalArgs(m, e, i, row, ArgState(m, e, i, row, s));
            ArgValues(m, e, i, row, s, r.values) && r.state == ArgState(m, e, |e.args|, row, s)
    decreases |e.args| - i
  {
    if i == |e.args| {
      hide Eval;
    } else {
      hide Eval, ArgValues;
      ArgsFrom(m, e, i + 1, row, s);
      ArgValuesCons(m, e, i, row, s, EvalArgs(m, e, i + 1, row, ArgState(m, e, i + 1, row, s)).values);
    }
  }

  /** A function gets the values of its arguments in their order; a pure one leaves the state they leave. */
  lemma CallValue<V, S>(m: Meaning<V, S>, id: nat, args: seq<Expr<V>>, row: nat -> V, s: S) returns (values: seq<V>)
    ensures var e := Call(Pure(id), args);
            && |values| == |args|
            && (forall k :: 0 <= k < |args| ==> values[k] == Eval(m, args[k], row, ArgState(m, e, k, row, s)).value)
            && Eval(m, e, row, s) == Result(m.pure(id, values), ArgState(m, e, |args|, row, s))
  {
    hide ArgState;
    var e := Call(Pure(id), args);
    values := EvalArgs(m, e, 0, row, s).values;
    StartState(m, e, row, s);
    ArgsFrom(m, e, 0, row, s);
    CallOf(m, id, args, row, s);
    hide Eval, EvalArgs;
  }

  lemma CallOf<V, S>(m: Meaning<V, S>, id: nat, args: seq<Expr<V>>, row: nat -> V, s: S)
    ensures var e := Call(Pure(id), args);
            var r := EvalArgs(m, e, 0, row, s);
            Eval(m, e, row, s) == Result(m.pure(id, r.values), r.state)
  {
    hide EvalArgs;
  }

  lemma StartState<V, S>(m: Meaning<V, S>, e: Expr<V>, row: nat -> V, s: S)
    requires e.Call?
    ensures ArgState(m, e, 0, row, s) == s
  {
  }

  /** The state in which condition k is evaluated: the earlier conditions have been. */
  ghost function CondState<V, S>(m: Meaning<V, S>, e: Expr<V>, k: nat, row: nat -> V, s: S): S
    requires e.Case? && k <= |e.alts|
  {
    if k == 0 then s else Eval(m, e.alts[k - 1].cond, row, CondState(m, e, k - 1, row, s)).state
  }

  ghost predicate CondHolds<V, S>(m: Meaning<V, S>, e: Expr<V>, k: nat, row: nat -> V, s: S)
    requires e.Case? && k < |e.alts|
  {
    m.isTrue(Eval(m, e.alts[k].cond, row, CondState(m, e, k, row, s)).value)
  }

  lemma {:induction false} CaseFrom<V, S>(m: Meaning<V, S>, e: Expr<V>, i: nat, k: nat, row: nat -> V, s: S)
    requires e.Case? && i <= k <= |e.alts| && (forall j :: i <= j < k ==> !CondHolds(m, e, j, row, s))
    requires k < |e.alts| ==> CondHolds(m, e, k, row, s)
    ensures EvalCase(m, e, i, row, CondState(m, e, i, row, s)) ==
            if k < |e.alts| then Eval(m, e.alts[k].val, row, CondState(m, e, k + 1, row, s))
            else Eval(m, e.otherwise, row, CondState(m, e, k, row, s))
    decreases k - i
  {
    hide Eval;
    if i < k {
      assert !CondHolds(m, e, i, row, s);
      CaseFrom(m, e, i + 1, k, row, s);
    }
  }

  /** CASE is the THEN of its first alternative whose condition holds, in the state that the conditions up to it
      leave, and ELSE when none holds. */
  lemma CaseValue<V, S>(m: Meaning<V, S>, e: Expr<V>, k: nat, row: nat -> V, s: S)
    requires e.Case? && k <= |e.alts| && (forall j :: 0 <= j < k ==> !CondHolds(m, e, j, row, s))
    requires k < |e.alts| ==> CondHolds(m, e, k, row, s)
    ensures Eval(m, e, row, s) ==
            if k < |e.alts| then Eval(m, e.alts[k].val, row, CondState(m, e, k + 1, row, s))
            else Eval(m, e.otherwise, row, CondState(m, e, k, row, s))
  {
    hide CondHolds;
    CaseFrom(m, e, 0, k, row, s);
  }

  // ---------------------------------------------------------------- which expressions are constant

  /** What an expression is made of: the inputs it reads and the functions it calls. */
  datatype Atom = Reads(id: nat) | Calls(fn: Function)

  ghost predicate Uses<V>(e: Expr<V>, a: Atom)
    decreases e
  {
    match e
    case Literal(_) => false
    case Input(id) => a == Reads(id)
    case Call(fn, args) => a == Calls(fn) || exists i :: 0 <= i < |args| && Uses(args[i], a)
    case Case(alts, otherwise) =>
      Uses(otherwise, a) || exists i :: 0 <= i < |alts| && (Uses(alts[i].cond, a) || Uses(alts[i].val, a))
  }

  predicate Varies(a: Atom) {
    a.Reads? || a.fn.NextVal? || a.fn.GenRandomUuid?
  }

  /** An expression counts as constant exactly when it reads no input and calls neither `nextval` nor
      `gen_random_uuid`, at any depth. */
  lemma {:induction false} ConstantExactly<V>(e: Expr<V>)
    ensures IsConstant(e) <==> forall a :: Uses(e, a) ==> !Varies(a)
    decreases e, 1, 0
  {
    match e
    case Literal(_) =>
    case Input(id) => assert Uses(e, Reads(id));
    case Call(fn, args) =>
      ArgsConstantExactly(e, 0);
      assert Uses(e, Calls(fn));
      assert forall i, a :: 0 <= i < |args| && Uses(args[i], a) ==> Uses(e, a);
    case Case(alts, otherwise) =>
      AltsConstantExactly(e, 0);
      ConstantExactly(otherwise);
      assert forall i, a :: 0 <= i < |alts| && (Uses(alts[i].cond, a) || Uses(alts[i].val, a)) ==> Uses(e, a);
  }

  lemma {:induction false} ArgsConstantExactly<V>(e: Expr<V>, i: nat)
    requires e.Call? && i <= |e.args|
    ensures ArgsConstant(e, i) <==> forall k, a :: i <= k < |e.args| && Uses(e.args[k], a) ==> !Varies(a)
    decreases e, 0, |e.args| - i
  {
    if i < |e.args| {
      ConstantExactly(e.args[i]);
      ArgsConstantExactly(e, i + 1);
    }
  }

  lemma {:induction false} AltsConstantExactly<V>(e: Expr<V>, i: nat)
    requires e.Case? && i <= |e.alts|
    ensures AltsConstant(e, i) <==>
            forall k, a :: i <= k < |e.alts| && (Uses(e.alts[k].cond, a) || Uses(e.alts[k].val, a)) ==> !Varies(a)
    decreases e, 0, |e.alts| - i
  {
    if i < |e.alts| {
      ConstantExactly(e.alts[i].cond);
      ConstantExactly(e.alts[i].val);
      AltsConstantExactly(e, i + 1);
    }
  }

  // ---------------------------------------------------------------- constants depend on nothing

  /** A constant that reads no sequence has one value, whatever the row and state, and leaves the state alone. */
  lemma {:induction false} ConstantValue<V, S>(m: Meaning<V, S>, e: Expr<V>, r0: nat -> V, s0: S, r1: nat -> V, s1: S)
    requires IsConstant(e) && NoFrozenCurrVal(e)
    ensures Eval(m, e, r0, s0).value == Eval(m, e, r1, s1).value && Eval(m, e, r0, s0).state == s0
    decreases e, 1, 0
  {
    match e
    case Literal(_) =>
    case Call(_, _) => ConstantArgs(m, e, 0, r0, s0, r1, s1);
    case Case(_, _) => ConstantCase(m, e, 0, r0, s0, r1, s1);
  }

  lemma {:induction false} ConstantArgs<V, S>(m: Meaning<V, S>, e: Expr<V>, i: nat, r0: nat -> V, s0: S, r1: nat -> V, s1: S)
    requires e.Call? && i <= |e.args| && ArgsConstant(e, i) && ArgsNoFrozen(e, i)
    ensures EvalArgs(m, e, i, r0, s0).values == EvalArgs(m, e, i, r1, s1).values && EvalArgs(m, e, i, r0, s0).state == s0
    decreases e, 0, |e.args| - i
  {
    if i < |e.args| {
      ConstantValue(m, e.args[i], r0, s0, r1, s1);
      ConstantValue(m, e.args[i], r1, s1, r0, s0);
      ConstantArgs(m, e, i + 1, r0, s0, r1, s1);
    }
  }

  lemma {:induction false} ConstantCase<V, S>(m: Meaning<V, S>, e: Expr<V>, i: nat, r0: nat -> V, s0: S, r1: nat -> V, s1: S)
    requires e.Case? && i <= |e.alts| && AltsConstant(e, i) && AltsNoFrozen(e, i)
    requires IsConstant(e.otherwise) && NoFrozenCurrVal(e.otherwise)
    ensures EvalCase(m, e, i, r0, s0).value == EvalCase(m, e, i, r1, s1).value && EvalCase(m, e, i, r0, s0).state == s0
    decreases e, 0, |e.alts| - i
  {
    if i == |e.alts| {
      ConstantValue(m, e.otherwise, r0, s0, r1, s1);
    } else {
      ConstantValue(m, e.alts[i].cond, r0, s0, r1, s1);
      ConstantValue(m, e.alts[i].cond, r1, s1, r0, s0);
      ConstantValue(m, e.alts[i].val, r0, s0, r1, s1);
      ConstantCase(m, e, i + 1, r0, s0, r1, s1);
    }
  }

  // ---------------------------------------------------------------- folding keeps constants

  lemma {:induction false} FoldArgsAt<V, S>(m: Meaning<V, S>, e: Expr<V>, i: nat, j: nat, row: nat -> V, s: S)
    requires e.Call? && i <= j < |e.args|
    ensures FoldArgs(m, e, i, row, s)[j - i] == Fold(m, e.args[j], row, s)
    decreases j - i
  {
    hide Fold;
    if i < j {
      FoldArgsAt(m, e, i + 1, j, row, s);
    }
  }

  lemma {:induction false} FoldAltsAt<V, S>(m: Meaning<V, S>, e: Expr<V>, i: nat, j: nat, row: nat -> V, s: S)
    requires e.Case? && i <= j < |e.alts|
    ensures FoldAlts(m, e, i, row, s)[j - i] ==
            Alternative(Fold(m, e.alts[j].cond, row, s), Fold(m, e.alts[j].val, row, s))
    decreases j - i
  {
    hide Fold;
    if i < j {
      FoldAltsAt(m, e, i + 1, j, row, s);
    }
  }

  lemma {:induction false} FoldConstant<V, S>(m: Meaning<V, S>, e: Expr<V>, row: nat -> V, s: S)
    ensures IsConstant(Fold(m, e, row, s)) <==> IsConstant(e)
    ensures IsConstant(Rebuild(m, e, row, s)) <==> IsConstant(e)
    decreases e, 1, 0
  {
    hide Eval;
    match e
    case Literal(_) =>
    case Input(_) =>
    case Call(_, _) => FoldArgsConstant(m, e, 0, row, s);
    case Case(_, otherwise) =>
      FoldAltsConstant(m, e, 0, row, s);
      FoldConstant(m, otherwise, row, s);
  }

  lemma {:induction false} FoldArgsConstant<V, S>(m: Meaning<V, S>, e: Expr<V>, i: nat, row: nat -> V, s: S)
    requires e.Call? && i <= |e.args|
    ensures ArgsConstant(Rebuild(m, e, row, s), i) <==> ArgsConstant(e, i)
    decreases e, 0, |e.args| - i
  {
    hide Fold;
    if i < |e.args| {
      FoldArgsAt(m, e, 0, i, row, s);
      FoldConstant(m, e.args[i], row, s);
      FoldArgsConstant(m, e, i + 1, row, s);
    }
  }

  lemma {:induction false} FoldAltsConstant<V, S>(m: Meaning<V, S>, e: Expr<V>, i: nat, row: nat -> V, s: S)
    requires e.Case? && i <= |e.alts|
    ensures AltsConstant(Rebuild(m, e, row, s), i) <==> AltsConstant(e, i)
    decreases e, 0, |e.alts| - i
  {
    hide Fold;
    if i < |e.alts| {
      FoldAltsAt(m, e, 0, i, row, s);
      FoldConstant(m, e.alts[i].cond, row, s);
      FoldConstant(m, e.alts[i].val, row, s);
      FoldAltsConstant(m, e, i + 1, row, s);
    }
  }

  // ---------------------------------------------------------------- folding preserves meaning

  /** The folded expression has the same value and the same effect on every row and in every state. */
  lemma {:induction false} FoldPreserves<V, S>(m: Meaning<V, S>, e: Expr<V>, bindRow: nat -> V, bind: S, row: nat -> V, s: S)
    requires NoFrozenCurrVal(e)
    ensures Eval(m, Fold(m, e, bindRow, bind), row, s) == Eval(m, e, row, s)
    decreases e, 2, 0
  {
    RebuildPreserves(m, e, bindRow, bind, row, s);
    RebuildPreserves(m, e, bindRow, bind, bindRow, bind);
    FoldConstant(m, e, bindRow, bind);
    hide Rebuild;
    if IsConstant(e) {
      ConstantValue(m, e, row, s, bindRow, bind);
    }
    FoldCases(m, e, bindRow, bind, row, s);
  }

  /** A folded node is either a literal of the bind-time value or the node over its bound children. */
  lemma FoldCases<V, S>(m: Meaning<V, S>, e: Expr<V>, bindRow: nat -> V, bind: S, row: nat -> V, s: S)
    ensures var b := Rebuild(m, e, bindRow, bind);
            Eval(m, Fold(m, e, bindRow, bind), row, s) ==
              if NeedFold(b) then Result(Eval(m, b, bindRow, bind).value, s) else Eval(m, b, row, s)
  {
    hide Rebuild, IsConstant;
  }

  lemma {:induction false} RebuildPreserves<V, S>(m: Meaning<V, S>, e: Expr<V>, bindRow: nat -> V, bind: S, row: nat -> V, s: S)
    requires NoFrozenCurrVal(e)
    ensures Eval(m, Rebuild(m, e, bindRow, bind), row, s) == Eval(m, e, row, s)
    decreases e, 1, 0
  {
    hide Fold;
    match e
    case Literal(_) =>
    case Input(_) =>
    case Call(_, _) => ArgsPreserve(m, e, 0, bindRow, bind, row, s);
    case Case(_, _) => CasePreserves(m, e, 0, bindRow, bind, row, s);
  }

  lemma {:induction false} ArgsPreserve<V, S>(m: Meaning<V, S>, e: Expr<V>, i: nat, bindRow: nat -> V, bind: S, row: nat -> V, s: S)
    requires e.Call? && i <= |e.args| && ArgsNoFrozen(e, i)
    ensures EvalArgs(m, Rebuild(m, e, bindRow, bind), i, row, s) == EvalArgs(m, e, i, row, s)
    decreases e, 0, |e.args| - i
  {
    hide Fold;
    if i < |e.args| {
      FoldArgsAt(m, e, 0, i, bindRow, bind);
      FoldPreserves(m, e.args[i], bindRow, bind, row, s);
      ArgsPreserve(m, e, i + 1, bindRow, bind, row, Eval(m, e.args[i], row, s).state);
    }
  }

  lemma {:induction false} CasePreserves<V, S>(m: Meaning<V, S>, e: Expr<V>, i: nat, bindRow: nat -> V, bind: S, row: nat -> V, s: S)
    requires e.Case? && i <= |e.alts| && AltsNoFrozen(e, i) && NoFrozenCurrVal(e.otherwise)
    ensures EvalCase(m, Rebuild(m, e, bindRow, bind), i, row, s) == EvalCase(m, e, i, row, s)
    decreases e, 0, |e.alts| - i
  {
    hide Fold;
    if i == |e.alts| {
      FoldPreserves(m, e.otherwise, bindRow, bind, row, s);
    } else {
      var next := Eval(m, e.alts[i].cond, row, s).state;
      FoldAltsAt(m, e, 0, i, bindRow, bind);
      FoldPreserves(m, e.alts[i].cond, bindRow, bind, row, s);
      FoldPreserves(m, e.alts[i].val, bindRow, bind, row, next);
      CasePreserves(m, e, i + 1, bindRow, bind, row, next);
    }
  }

  // ---------------------------------------------------------------- what a constant folds to

  lemma {:induction false} ConstantState<V, S>(m: Meaning<V, S>, e: Expr<V>, row: nat -> V, s: S)
    requires IsConstant(e)
    ensures Eval(m, e, row, s).state == s
    decreases e, 1, 0
  {
    match e
    case Literal(_) =>
    case Call(_, _) => ConstantArgsState(m, e, 0, row, s);
    case Case(_, _) => ConstantCaseState(m, e, 0, row, s);
  }

  lemma {:induction false} ConstantArgsState<V, S>(m: Meaning<V, S>, e: Expr<V>, i: nat, row: nat -> V, s: S)
    requires e.Call? && i <= |e.args| && ArgsConstant(e, i)
    ensures EvalArgs(m, e, i, row, s).state == s
    decreases e, 0, |e.args| - i
  {
    if i < |e.args| {
      ConstantState(m, e.args[i], row, s);
      ConstantArgsState(m, e, i + 1, row, s);
    }
  }

  lemma {:induction false} ConstantCaseState<V, S>(m: Meaning<V, S>, e: Expr<V>, i: nat, row: nat -> V, s: S)
    requires e.Case? && i <= |e.alts| && AltsConstant(e, i) && IsConstant(e.otherwise)
    ensures EvalCase(m, e, i, row, s).state == s
    decreases e, 0, |e.alts| - i
  {
    if i == |e.alts| {
      ConstantState(m, e.otherwise, row, s);
    } else {
      ConstantState(m, e.alts[i].cond, row, s);
      ConstantState(m, e.alts[i].val, row, s);
      ConstantCaseState(m, e, i + 1, row, s);
    }
  }

  lemma {:induction false} RebuildConstant<V, S>(m: Meaning<V, S>, e: Expr<V>, row: nat -> V, s: S)
    requires IsConstant(e)
    ensures Eval(m, Rebuild(m, e, row, s), row, s) == Eval(m, e, row, s)
    decreases e, 1, 0
  {
    hide Fold;
    match e
    case Literal(_) =>
    case Call(_, _) => ArgsFoldSame(m, e, 0, row, s);
    case Case(_, _) => CaseFoldSame(m, e, 0, row, s);
  }

  lemma {:induction false} FoldSame<V, S>(m: Meaning<V, S>, e: Expr<V>, row: nat -> V, s: S)
    requires IsConstant(e)
    ensures Eval(m, Fold(m, e, row, s), row, s) == Eval(m, e, row, s)
    decreases e, 2, 0
  {
    RebuildConstant(m, e, row, s);
    ConstantState(m, e, row, s);
    FoldCases(m, e, row, s, row, s);
  }

  lemma {:induction false} ArgsFoldSame<V, S>(m: Meaning<V, S>, e: Expr<V>, i: nat, row: nat -> V, s: S)
    requires e.Call? && i <= |e.args| && ArgsConstant(e, i)
    ensures EvalArgs(m, Rebuild(m, e, row, s), i, row, s) == EvalArgs(m, e, i, row, s)
    decreases e, 0, |e.args| - i
  {
    hide Fold;
    if i < |e.args| {
      FoldArgsAt(m, e, 0, i, row, s);
      FoldSame(m, e.args[i], row, s);
      ConstantState(m, e.args[i], row, s);
      ArgsFoldSame(m, e, i + 1, row, s);
    }
  }

  lemma {:induction false} CaseFoldSame<V, S>(m: Meaning<V, S>, e: Expr<V>, i: nat, row: nat -> V, s: S)
    requires e.Case? && i <= |e.alts| && AltsConstant(e, i) && IsConstant(e.otherwise)
    ensures EvalCase(m, Rebuild(m, e, row, s), i, row, s) == EvalCase(m, e, i, row, s)
    decreases e, 0, |e.alts| - i
  {
    hide Fold;
    if i == |e.alts| {
      FoldSame(m, e.otherwise, row, s);
    } else {
      FoldAltsAt(m, e, 0, i, row, s);
      FoldSame(m, e.alts[i].cond, row, s);
      ConstantState(m, e.alts[i].cond, row, s);
      FoldSame(m, e.alts[i].val, row, s);
      CaseFoldSame(m, e, i + 1, row, s);
    }
  }

  /** A constant, one that reads a sequence included, folds to the literal of its value at bind time; anything else
      does not become a literal. */
  lemma FoldsToLiteral<V, S>(m: Meaning<V, S>, e: Expr<V>, row: nat -> V, s: S)
    ensures IsConstant(e) ==> Fold(m, e, row, s) == Literal(Eval(m, e, row, s).value)
    ensures !IsConstant(e) ==> !Fold(m, e, row, s).Literal?
  {
    FoldConstant(m, e, row, s);
    if IsConstant(e) {
      RebuildConstant(m, e, row, s);
    }
    hide Eval;
  }

  // ---------------------------------------------------------------- frozen sequences

  /** `currval` of a literal name is folded: it keeps the value of bind time, and so agrees later exactly
      while the sequence stands where it stood. */
  lemma FrozenCurrVal<V, S>(m: Meaning<V, S>, name: V, bindRow: nat -> V, bind: S, row: nat -> V, s: S)
    ensures var e := Call(CurrVal, [Literal(name)]);
            && IsConstant(e) && !NoFrozenCurrVal(e)
            && Fold(m, e, bindRow, bind) == Literal(m.curr(bind, [name]))
            && (Eval(m, Fold(m, e, bindRow, bind), row, s) == Eval(m, e, row, s) <==> m.curr(bind, [name]) == m.curr(s, [name]))
  {
    var e: Expr<V> := Call(CurrVal, [Literal(name)]);
    assert ArgsConstant(e, 1);
    assert FoldArgs(m, e, 1, bindRow, bind) == [];
    assert Fold(m, e.args[0], bindRow, bind) == Literal(name);
    assert FoldArgs(m, e, 0, bindRow, bind) == [Literal(name)] + [];
    assert Rebuild(m, e, bindRow, bind) == e;
    CurrValOf(m, name, bindRow, bind);
    CurrValOf(m, name, row, s);
  }

  lemma CurrValOf<V, S>(m: Meaning<V, S>, name: V, row: nat -> V, s: S)
    ensures Eval(m, Call(CurrVal, [Literal(name)]), row, s) == Result(m.curr(s, [name]), s)
  {
    var e: Expr<V> := Call(CurrVal, [Literal(name)]);
    assert EvalArgs(m, e, 1, row, s) == Results([], s);
    assert Eval(m, e.args[0], row, s) == Result(name, s);
    assert [name] + [] == [name];
    assert EvalArgs(m, e, 0, row, s) == Results([name], s);
  }
}
