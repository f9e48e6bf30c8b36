/**
 The before-child shortcuts: leaves and the common flat node types are
 classified directly, without descending into them.  Each shortcut either
 answers `Done(result)` or asks the walker to `Descend`; variables seen for
 the first time are registered in the visitor's variable order.
 */
module BeforeChild {
  import opened Wrappers
  import opened Numbers
  import opened LinearMaps
  import opened Exprs
  import opened LinearRepn
  import opened ExitRules

  /** A variable leaf: its identity, whether it is fixed, and its current value. */
  datatype Var = Var(id: VarId, fixed: bool, value: Num)

  /** A fixed variable's value is what the environment gives it. */
  ghost predicate Agrees(v: Var, env: VarId -> real) {
    v.fixed ==> v.value == R(env(v.id))
  }

  /**
   The visitor's `var_order`: each registered variable's position in the
   order of first appearance.
   */
  datatype Registry = Registry(order: map<VarId, nat>) {
    /** The positions are exactly 0 .. |order|-1, each used once. */
    ghost predicate Valid() {
      && (forall k :: k in order ==> order[k] < |order|)
      && (forall j, k :: j in order && k in order && j != k ==> order[j] != order[k])
    }

    /** Registration gives a new variable the next position. */
    function Register(id: VarId): (r: Registry)
      requires id !in order
      ensures Valid() ==> r.Valid()
      ensures id in r.order && r.order[id] == |order| && |r.order| == |order| + 1
      ensures forall k :: k in order ==> k in r.order && r.order[k] == order[k]
      ensures forall k :: k in r.order ==> k in order || k == id
    {
      Registry(order[id := |order|])
    }
  }

  /** `r` keeps every position `base` assigned and only adds positions after them. */
  ghost predicate Extends(base: Registry, r: Registry) {
    && (forall k :: k in base.order ==> k in r.order && r.order[k] == base.order[k])
    && (forall k :: k in r.order && k !in base.order ==> r.order[k] >= |base.order|)
    && |base.order| <= |r.order|
  }

  /** What a before-child shortcut tells the walker. */
  datatype Before = Descend | Done(result: Tagged)

  datatype Visit = Visit(before: Before, reg: Registry)

  /** The result for a registered variable with coefficient `c`. */
  function Single(id: VarId, c: Num): (t: Tagged)
    ensures t.Linear? && t.repn.multiplier == One && t.repn.constant == Zero && t.repn.nonlinear.None?
    ensures t.repn.linear.keys == [id] && t.repn.linear.coef == map[id := c]
    ensures t.Valid()
  {
    Linear(NewRepn().(linear := EmptyMap().Put(id, c)))
  }

  lemma SingleValue(id: VarId, c: Num, env: VarId -> real, atom: Expr -> Num)
    ensures TaggedValue(Single(id, c), env, atom) == c.Times(R(env(id)))
  {
    var m := Single(id, c).repn.linear;
    assert LinSum(m, env) == Zero.Plus(c.Times(R(env(id)))) by {
      assert m.keys == [] + [id];
      PutNewSum(EmptyMap(), id, c, env);
    }
    PlusZero(c.Times(R(env(id))));
    TimesOne(c.Times(R(env(id))));
  }

  //
  // Variables
  //

  /**
   A variable not yet registered that is fixed is its value, as a CONSTANT;
   otherwise it is registered (if new) and becomes LINEAR with coefficient 1.
   */
  function BeforeVar(reg: Registry, v: Var): (r: Visit)
    ensures r.before.Done?
    ensures v.id !in reg.order && v.fixed ==> r == Visit(Done(Constant(v.value)), reg)
    ensures v.id in reg.order || !v.fixed ==> r.before.result == Single(v.id, One)
    ensures v.id in reg.order ==> r.reg == reg
    ensures v.id !in reg.order && !v.fixed ==> r.reg == reg.Register(v.id)
  {
    if v.id !in reg.order && v.fixed then Visit(Done(Constant(v.value)), reg)
    else
      var reg' := if v.id in reg.order then reg else reg.Register(v.id);
      Visit(Done(Single(v.id, One)), reg')
  }

  /** The shortcut keeps the order valid, registers the variable unless it answered its value, and denotes the variable. */
  lemma BeforeVarSound(reg: Registry, v: Var, env: VarId -> real, atom: Expr -> Num)
    requires reg.Valid() && Agrees(v, env)
    ensures var r := BeforeVar(reg, v);
      && r.reg.Valid() && Extends(reg, r.reg)
      && r.before.result.Valid()
      && (r.before.result.Linear? ==> v.id in r.reg.order)
      && TaggedValue(r.before.result, env, atom) == R(env(v.id))
  {
    var r := BeforeVar(reg, v);
    if !(v.id !in reg.order && v.fixed) {
      SingleValue(v.id, One, env, atom);
    }
  }

  //
  // Monomials
  //

  /**
   A monomial `coef * v`.  `coef` is `None` when evaluating the coefficient
   raised, in which case the walker descends.  A coefficient that is 0 or
   NaN is the whole answer; otherwise a new fixed variable folds into a
   CONSTANT and any other variable is registered and becomes LINEAR.
   */
  function BeforeMonomial(reg: Registry, coef: Option<Num>, v: Var): (r: Visit)
    ensures coef.None? ==> r == Visit(Descend, reg)
    ensures coef.Some? ==> r.before.Done?
    ensures coef.Some? && (coef.value.IsZero() || coef.value.IsNaN()) ==> r == Visit(Done(Constant(coef.value)), reg)
    ensures coef.Some? && !coef.value.IsZero() && !coef.value.IsNaN() ==>
      (if v.id !in reg.order && v.fixed then r == Visit(Done(Constant(coef.value.Times(v.value))), reg)
       else (r.before.result == Single(v.id, coef.value) && r.reg == (if v.id in reg.order then reg else reg.Register(v.id))))
  {
    match coef
    case None => Visit(Descend, reg)
    case Some(c) =>
      if c.IsZero() || c.IsNaN() then Visit(Done(Constant(c)), reg)
      else if v.id !in reg.order && v.fixed then Visit(Done(Constant(c.Times(v.value))), reg)
      else
        var reg' := if v.id in reg.order then reg else reg.Register(v.id);
        Visit(Done(Single(v.id, c)), reg')
  }

  /** When the shortcut answers, its answer denotes `coef * v` and the order stays valid. */
  lemma BeforeMonomialSound(reg: Registry, coef: Option<Num>, v: Var, env: VarId -> real, atom: Expr -> Num)
    requires reg.Valid() && Agrees(v, env)
    ensures var r := BeforeMonomial(reg, coef, v);
      && r.reg.Valid() && Extends(reg, r.reg)
      && (r.before.Done? ==>
            r.before.result.Valid() && TaggedValue(r.before.result, env, atom) == coef.value.Times(R(env(v.id))))
  {
    if coef.Some? {
      var c := coef.value;
      if c.IsZero() || c.IsNaN() {
        ZeroTimesReal(env(v.id));
      } else if !(v.id !in reg.order && v.fixed) {
        SingleValue(v.id, c, env, atom);
      }
    }
  }

  //
  // Flat linear expressions
  //

  /**
   An argument of a flat linear sum: a monomial, or any other term.  An
   absent number means evaluating it raised.
   */
  datatype LinArg = Monomial(coef: Option<Num>, v: Var) | Other(value: Option<Num>) {
    predicate Evaluates() {
      if Monomial? then coef.Some? else value.Some?
    }

    function ArgValue(env: VarId -> real): Num
      requires Evaluates()
    {
      if Monomial? then coef.value.Times(R(env(v.id))) else value.value
    }
  }

  ghost predicate AllAgree(args: seq<LinArg>, env: VarId -> real) {
    forall i :: 0 <= i < |args| && args[i].Monomial? ==> Agrees(args[i].v, env)
  }

  /** The sum the argument list denotes. */
  function ArgsValue(args: seq<LinArg>, env: VarId -> real): Num
    requires forall i :: 0 <= i < |args| ==> args[i].Evaluates()
  {
    if |args| == 0 then Zero else args[0].ArgValue(env).Plus(ArgsValue(args[1..], env))
  }

  /** The accumulators of the loop over the arguments. */
  datatype LinState = LinState(constant: Num, linear: LinMap, reg: Registry) {
    ghost predicate Valid() {
      linear.Valid() && reg.Valid() && forall k :: k in linear.coef ==> k in reg.order
    }

    function StateValue(env: VarId -> real): Num {
      constant.Plus(LinSum(linear, env))
    }
  }

  datatype Step = Continue(state: LinState) | Abort(reg: Registry) {
    /** The registry the loop ends with, however it ends. */
    function FinalReg(): Registry {
      if Abort? then reg else state.reg
    }
  }

  /**
   One iteration of the loop over the arguments.  An argument that cannot be
   evaluated stops the loop.  A falsy coefficient is skipped, a NaN one and
   any other term go to the constant, an unregistered fixed variable folds
   into the constant, an unregistered free variable is registered at the next
   position and entered, and a registered one is added to its entry.
   */
  function LinearStep(s: LinState, arg: LinArg): (r: Step)
    requires s.Valid()
    ensures r.Abort? <==> !arg.Evaluates()
    ensures r.Abort? ==> r.reg == s.reg
    ensures r.Continue? ==> r.state.Valid() && Extends(s.reg, r.state.reg)
    ensures arg.Other? && arg.value.Some? ==> r == Continue(s.(constant := s.constant.Plus(arg.value.value)))
    ensures arg.Monomial? && arg.coef.Some? ==>
      var c, v := arg.coef.value, arg.v;
      if c.IsZero() then r == Continue(s)
      else if c.IsNaN() then r == Continue(s.(constant := s.constant.Plus(c)))
      else if v.id !in s.reg.order && v.fixed then r == Continue(s.(constant := s.constant.Plus(c.Times(v.value))))
      else if v.id !in s.reg.order then r == Continue(LinState(s.constant, s.linear.Put(v.id, c), s.reg.Register(v.id)))
      else r == Continue(s.(linear := AddTerm(s.linear, v.id, c)))
  {
    match arg
    case Other(None) => Abort(s.reg)
    case Other(Some(x)) => Continue(s.(constant := s.constant.Plus(x)))
    case Monomial(None, _) => Abort(s.reg)
    case Monomial(Some(c), v) =>
      if c.IsZero() then Continue(s)
      else if c.IsNaN() then Continue(s.(constant := s.constant.Plus(c)))
      else if v.id !in s.reg.order then
        if v.fixed then Continue(s.(constant := s.constant.Plus(c.Times(v.value))))
        else Continue(LinState(s.constant, s.linear.Put(v.id, c), s.reg.Register(v.id)))
      else if v.id in s.linear.coef then Continue(s.(linear := s.linear.Put(v.id, s.linear.coef[v.id].Plus(c))))
      else Continue(s.(linear := s.linear.Put(v.id, c)))
  }

  lemma LinearStepValue(s: LinState, arg: LinArg, env: VarId -> real)
    requires s.Valid() && arg.Evaluates() && (arg.Monomial? ==> Agrees(arg.v, env))
    ensures LinearStep(s, arg).state.StateValue(env) == s.StateValue(env).Plus(arg.ArgValue(env))
  {
    var L := LinSum(s.linear, env);
    match arg
    case Other(Some(x)) =>
      PlusAssoc(s.constant, x, L);
      PlusComm(x, L);
      PlusAssoc(s.constant, L, x);
    case Monomial(Some(c), v) =>
      var t := c.Times(R(env(v.id)));
      if c.IsZero() {
        ZeroTimesReal(env(v.id));
        PlusZero(s.StateValue(env));
      } else if c.IsNaN() {
      } else if v.id !in s.reg.order && v.fixed {
        PlusAssoc(s.constant, t, L);
        PlusComm(t, L);
        PlusAssoc(s.constant, L, t);
      } else if v.id !in s.reg.order || v.id !in s.linear.coef {
        PutNewSum(s.linear, v.id, c, env);
        PlusAssoc(s.constant, L, t);
      } else {
        PutAddSum(s.linear, v.id, c, env);
        PlusAssoc(s.constant, L, t);
      }
  }

  /** The loop over the arguments, stopping at the first one that cannot be evaluated. */
  function FoldLinear(s: LinState, args: seq<LinArg>): (r: Step)
    requires s.Valid()
    ensures r.Continue? ==> r.state.Valid() && Extends(s.reg, r.state.reg)
    ensures r.Abort? ==> r.reg.Valid() && Extends(s.reg, r.reg)
    decreases |args|
  {
    if |args| == 0 then Continue(s)
    else
      match LinearStep(s, args[0])
      case Abort(reg) => Abort(reg)
      case Continue(s') => FoldLinear(s', args[1..])
  }

  /** The loop gives up exactly when some argument cannot be evaluated. */
  lemma {:induction false} FoldLinearAborts(s: LinState, args: seq<LinArg>)
    requires s.Valid()
    ensures FoldLinear(s, args).Abort? <==> exists i :: 0 <= i < |args| && !args[i].Evaluates()
    decreases |args|
  {
    if |args| > 0 && args[0].Evaluates() {
      var s' := LinearStep(s, args[0]).state;
      var tail := args[1..];
      FoldLinearAborts(s', tail);
      if exists i :: 0 <= i < |tail| && !tail[i].Evaluates() {
        var i :| 0 <= i < |tail| && !tail[i].Evaluates();
        assert !args[i + 1].Evaluates();
      }
      if exists i :: 0 <= i < |args| && !args[i].Evaluates() {
        var i :| 0 <= i < |args| && !args[i].Evaluates();
        assert i > 0 && !tail[i - 1].Evaluates();
      }
    }
  }

  lemma {:induction false} FoldLinearValue(s: LinState, args: seq<LinArg>, env: VarId -> real)
    requires s.Valid() && AllAgree(args, env)
    requires forall i :: 0 <= i < |args| ==> args[i].Evaluates()
    ensures FoldLinear(s, args).Continue?
    ensures FoldLinear(s, args).state.StateValue(env) == s.StateValue(env).Plus(ArgsValue(args, env))
    decreases |args|
  {
    if |args| == 0 {
      PlusZero(s.StateValue(env));
    } else {
      var s' := LinearStep(s, args[0]).state;
      LinearStepValue(s, args[0], env);
      var tail := args[1..];
      assert forall i :: 0 <= i < |tail| ==> tail[i] == args[i + 1];
      FoldLinearValue(s', tail, env);
      PlusAssoc(s.StateValue(env), args[0].ArgValue(env), ArgsValue(tail, env));
    }
  }

  /** The argument registers its variable: a truthy, non-NaN monomial over a variable that is not fixed. */
  predicate Registers(arg: LinArg) {
    arg.Monomial? && arg.coef.Some? && !arg.coef.value.IsZero() && !arg.coef.value.IsNaN() && !arg.v.fixed
  }

  /** The argument gets a linear entry: a truthy, non-NaN monomial over a variable that is registered in `reg` or not fixed. */
  predicate Enters(reg: Registry, arg: LinArg) {
    && arg.Monomial? && arg.coef.Some? && !arg.coef.value.IsZero() && !arg.coef.value.IsNaN()
    && (arg.v.id in reg.order || !arg.v.fixed)
  }

  /** The variables the arguments register, up to the first argument that cannot be evaluated. */
  function RegisteredBy(args: seq<LinArg>): set<VarId> {
    if |args| == 0 || !args[0].Evaluates() then {}
    else (if Registers(args[0]) then {args[0].v.id} else {}) + RegisteredBy(args[1..])
  }

  /** The variables the arguments give a linear entry, judged against the registry the loop starts from. */
  function EnteredBy(reg: Registry, args: seq<LinArg>): set<VarId> {
    if |args| == 0 then {}
    else (if Enters(reg, args[0]) then {args[0].v.id} else {}) + EnteredBy(reg, args[1..])
  }

  /** Judging against a larger registry adds at most the newly registered variables. */
  lemma {:induction false} EnteredByGrows(reg: Registry, reg': Registry, args: seq<LinArg>)
    requires reg.order.Keys <= reg'.order.Keys
    ensures EnteredBy(reg, args) <= EnteredBy(reg', args)
    ensures EnteredBy(reg', args) <= EnteredBy(reg, args) + (reg'.order.Keys - reg.order.Keys)
    decreases |args|
  {
    if |args| > 0 {
      EnteredByGrows(reg, reg', args[1..]);
    }
  }

  /** One step registers at most the step's own variable. */
  lemma StepRegKeys(s: LinState, arg: LinArg)
    requires s.Valid() && arg.Evaluates()
    ensures LinearStep(s, arg).state.reg.order.Keys == s.reg.order.Keys + (if Registers(arg) then {arg.v.id} else {})
  {
    var t := LinearStep(s, arg).state;
    match arg
    case Other(_) =>
      assert t.reg == s.reg;
    case Monomial(Some(c), v) =>
      if c.IsZero() || c.IsNaN() || v.id in s.reg.order || v.fixed {
        assert t.reg == s.reg;
      } else {
        assert t.reg == s.reg.Register(v.id);
      }
  }

  /** One step enters at most the step's own variable. */
  lemma StepLinearKeys(s: LinState, arg: LinArg)
    requires s.Valid() && arg.Evaluates()
    ensures LinearStep(s, arg).state.linear.coef.Keys == s.linear.coef.Keys + (if Enters(s.reg, arg) then {arg.v.id} else {})
  {
    var t := LinearStep(s, arg).state;
    match arg
    case Other(_) =>
      assert t.linear == s.linear;
    case Monomial(Some(c), v) =>
      if c.IsZero() || c.IsNaN() || (v.id !in s.reg.order && v.fixed) {
        assert t.linear == s.linear;
      } else if v.id !in s.reg.order {
        assert t.linear == s.linear.Put(v.id, c);
      } else {
        assert t.linear == AddTerm(s.linear, v.id, c);
      }
  }

  lemma UnionShift(a: set<VarId>, base: set<VarId>, base': set<VarId>, first: set<VarId>, rest: set<VarId>)
    requires a == base' + rest && base' == base + first
    ensures a == base + (first + rest)
  {
  }

  lemma EnteredShift(a: set<VarId>, base: set<VarId>, base': set<VarId>, first: set<VarId>,
                     rest: set<VarId>, rest': set<VarId>, added: set<VarId>)
    requires a == base' + rest' && base' == base + first
    requires rest <= rest' <= rest + added && added <= first
    ensures a == base + (first + rest)
  {
  }

  /** The loop registers exactly the free variables of the truthy, non-NaN monomials before the first argument it cannot evaluate. */
  lemma {:induction false} FoldLinearRegistered(s: LinState, args: seq<LinArg>)
    requires s.Valid()
    ensures FoldLinear(s, args).FinalReg().order.Keys == s.reg.order.Keys + RegisteredBy(args)
    decreases |args|
  {
    if |args| > 0 && args[0].Evaluates() {
      var a, tail := args[0], args[1..];
      var s' := LinearStep(s, a).state;
      var r0 := if Registers(a) then {a.v.id} else {};
      assert FoldLinear(s, args) == FoldLinear(s', tail);
      assert RegisteredBy(args) == r0 + RegisteredBy(tail);
      StepRegKeys(s, a);
      FoldLinearRegistered(s', tail);
      UnionShift(FoldLinear(s', tail).FinalReg().order.Keys, s.reg.order.Keys, s'.reg.order.Keys, r0, RegisteredBy(tail));
    }
  }

  /** A completed loop enters exactly the variables `EnteredBy` names. */
  lemma {:induction false} FoldLinearEntered(s: LinState, args: seq<LinArg>)
    requires s.Valid()
    ensures var r := FoldLinear(s, args);
      r.Continue? ==> r.state.linear.coef.Keys == s.linear.coef.Keys + EnteredBy(s.reg, args)
    decreases |args|
  {
    if |args| > 0 && args[0].Evaluates() {
      var a, tail := args[0], args[1..];
      var s' := LinearStep(s, a).state;
      var e0 := if Enters(s.reg, a) then {a.v.id} else {};
      var r' := FoldLinear(s', tail);
      assert FoldLinear(s, args) == r';
      assert EnteredBy(s.reg, args) == e0 + EnteredBy(s.reg, tail);
      StepRegKeys(s, a);
      StepLinearKeys(s, a);
      FoldLinearEntered(s', tail);
      EnteredByGrows(s.reg, s'.reg, tail);
      if r'.Continue? {
        EnteredShift(r'.state.linear.coef.Keys, s.linear.coef.Keys, s'.linear.coef.Keys, e0,
                     EnteredBy(s.reg, tail), EnteredBy(s'.reg, tail), s'.reg.order.Keys - s.reg.order.Keys);
      }
    }
  }

  /** The answer of a completed loop: LINEAR when the map has any entry (even one that cancelled to 0), else CONSTANT. */
  function Answer(s: LinState): (t: Tagged)
    requires s.Valid()
    ensures t.Valid() && !t.General?
    ensures t.Linear? <==> s.linear.coef.Keys != {}
    ensures t.Constant? ==> t.value == s.constant
    ensures t.Linear? ==> t.repn == Repn(One, s.constant, s.linear, None)
  {
    EmptyIffNoCoef(s.linear);
    if !s.linear.IsEmpty() then Linear(NewRepn().(constant := s.constant, linear := s.linear))
    else Constant(s.constant)
  }

  /** The answer denotes the accumulated `constant + sum(coef*x)`. */
  lemma AnswerValue(s: LinState, env: VarId -> real, atom: Expr -> Num)
    requires s.Valid()
    ensures TaggedValue(Answer(s), env, atom) == s.StateValue(env)
  {
    var v := s.StateValue(env);
    if Answer(s).Linear? {
      assert TaggedValue(Answer(s), env, atom) == One.Times(v.Plus(Zero));
      PlusZero(v);
      TimesOne(v);
    } else {
      EmptyIffNoCoef(s.linear);
      PlusZero(s.constant);
    }
  }

  /** The loop started from empty accumulators: the registry it ends with. */
  lemma FromEmptyRegistry(reg: Registry, args: seq<LinArg>)
    requires reg.Valid()
    ensures var r := FoldLinear(LinState(Zero, EmptyMap(), reg), args);
      && r.FinalReg().Valid() && Extends(reg, r.FinalReg())
      && r.FinalReg().order.Keys == reg.order.Keys + RegisteredBy(args)
  {
    FoldLinearRegistered(LinState(Zero, EmptyMap(), reg), args);
  }

  /** The loop started from empty accumulators: whether it completes, and the keys it enters. */
  lemma FromEmptyLinear(reg: Registry, args: seq<LinArg>)
    requires reg.Valid()
    ensures var r := FoldLinear(LinState(Zero, EmptyMap(), reg), args);
      && (r.Abort? <==> exists i :: 0 <= i < |args| && !args[i].Evaluates())
      && (r.Continue? ==> r.state.Valid() && r.state.linear.coef.Keys == EnteredBy(reg, args))
  {
    var s0 := LinState(Zero, EmptyMap(), reg);
    FoldLinearAborts(s0, args);
    FoldLinearEntered(s0, args);
  }

  /** Folding evaluable arguments from empty accumulators yields their sum. */
  lemma FromEmptyValue(reg: Registry, args: seq<LinArg>, env: VarId -> real)
    requires reg.Valid() && AllAgree(args, env)
    requires forall i :: 0 <= i < |args| ==> args[i].Evaluates()
    ensures var r := FoldLinear(LinState(Zero, EmptyMap(), reg), args);
      r.Continue? && r.state.Valid() && r.state.StateValue(env) == ArgsValue(args, env)
  {
    var s0 := LinState(Zero, EmptyMap(), reg);
    FoldLinearValue(s0, args, env);
    EmptyStateValue(reg, env);
    PlusZero(ArgsValue(args, env));
  }

  /** Empty accumulators denote zero. */
  lemma EmptyStateValue(reg: Registry, env: VarId -> real)
    ensures LinState(Zero, EmptyMap(), reg).StateValue(env) == Zero
  {
    PlusZero(Zero);
  }

  /**
   A flat linear sum: the arguments are folded into one constant and one
   linear map.  An argument that cannot be evaluated makes the walker
   descend, keeping the registrations already made.
   */
  function BeforeLinear(reg: Registry, args: seq<LinArg>): (r: Visit)
    requires reg.Valid()
    ensures r.reg.Valid() && Extends(reg, r.reg)
    ensures r.reg.order.Keys == reg.order.Keys + RegisteredBy(args)
    ensures r.before.Descend? <==> exists i :: 0 <= i < |args| && !args[i].Evaluates()
    ensures r.before.Done? ==> r.before.result.Valid() && !r.before.result.General?
    ensures r.before.Done? ==> (r.before.result.Linear? <==> EnteredBy(reg, args) != {})
    ensures r.before.Done? && r.before.result.Linear? ==>
      && r.before.result.repn.multiplier == One
      && r.before.result.repn.linear.coef.Keys == EnteredBy(reg, args)
      && forall k :: k in r.before.result.repn.linear.coef ==> k in r.reg.order
  {
    FromEmptyRegistry(reg, args);
    FromEmptyLinear(reg, args);
    match FoldLinear(LinState(Zero, EmptyMap(), reg), args)
    case Abort(reg') => Visit(Descend, reg')
    case Continue(s) => Visit(Done(Answer(s)), s.reg)
  }

  /** `0*x + 5` over a free `x`: the zero term is skipped, so `x` is not registered and the answer is CONSTANT 5. */
  lemma BeforeLinearZeroTerm()
    ensures var r := BeforeLinear(Registry(map[]), [Monomial(Some(Zero), Var(0, false, Zero)), Other(Some(R(5.0)))]);
      r.before == Done(Constant(R(5.0))) && r.reg.order == map[]
  {
    var reg := Registry(map[]);
    var args := [Monomial(Some(Zero), Var(0, false, Zero)), Other(Some(R(5.0)))];
    var s0 := LinState(Zero, EmptyMap(), reg);
    var s1 := LinearStep(s0, args[0]).state;
    assert s1 == s0;
    assert LinearStep(s1, args[1]) == Continue(s0.(constant := Zero.Plus(R(5.0))));
    PlusZero(R(5.0));
    var s2 := LinState(R(5.0), EmptyMap(), reg);
    assert FoldLinear(s0, args) == FoldLinear(s2, []) by {
      assert args[1..][1..] == [];
    }
    assert Answer(s2) == Constant(R(5.0));
  }

  /** A flat linear sum's shortcut denotes the sum of its arguments. */
  lemma BeforeLinearSound(reg: Registry, args: seq<LinArg>, env: VarId -> real, atom: Expr -> Num)
    requires reg.Valid() && AllAgree(args, env)
    requires forall i :: 0 <= i < |args| ==> args[i].Evaluates()
    ensures BeforeLinear(reg, args).before.Done?
    ensures TaggedValue(BeforeLinear(reg, args).before.result, env, atom) == ArgsValue(args, env)
  {
    FromEmptyValue(reg, args, env);
    var s := FoldLinear(LinState(Zero, EmptyMap(), reg), args).state;
    assert BeforeLinear(reg, args).before == Done(Answer(s));
    AnswerValue(s, env, atom);
  }

  //
  // Named subexpressions
  //

  /** A named subexpression already in the cache is answered from it; otherwise the walker descends. */
  function BeforeNamed(cache: Cache, node: NodeId): (r: Before)
    ensures r.Done? <==> node in cache
    ensures r.Done? ==> r.result == cache[node]
  {
    if node in cache then Done(cache[node]) else Descend
  }

  /** What the exit of a named node records is what its next visit answers, and no other node's answer changes. */
  lemma NamedRoundTrip(cache: Cache, node: NodeId, a: Tagged, other: NodeId)
    requires CacheValid(cache) && a.Valid()
    ensures BeforeNamed(NamedExit(cache, node, a).cache, node) == Done(NamedExit(cache, node, a).result)
    ensures other != node ==> BeforeNamed(NamedExit(cache, node, a).cache, other) == BeforeNamed(cache, other)
  {}
}
