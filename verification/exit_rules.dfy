/**
 The exit-node rule table: for each operator, the classified results of its
 operands go in and the operator's own classified result comes out.  Rules
 that keep an operand "in place" return it with only its pending multiplier
 changed; rules that cannot stay affine rebuild the operands as expressions
 and wrap them in a fresh GENERAL result.
 */
module ExitRules {
  import opened Wrappers
  import opened Numbers
  import opened LinearMaps
  import opened Exprs
  import opened LinearRepn

  const MinusOne: Num := R(-1.0)

  /** The operand with only its pending multiplier replaced (`arg[1].multiplier = m`). */
  function Rescaled(a: Tagged, m: Num): (t: Tagged)
    requires !a.Constant?
    ensures t.Linear? == a.Linear? && t.General? == a.General?
    ensures t.repn == a.repn.(multiplier := m)
  {
    if a.Linear? then Linear(a.repn.(multiplier := m)) else General(a.repn.(multiplier := m))
  }

  /** `visitor.Result()` holding only a residual. */
  function GeneralOf(e: Expr): (t: Tagged)
    ensures t.Valid() && t.General?
    ensures t.repn.multiplier == One && t.repn.constant == Zero
    ensures t.repn.linear.IsEmpty() && t.repn.nonlinear == Some(e)
  {
    General(NewRepn().(nonlinear := Some(e)))
  }

  /** A fresh residual-only result denotes its residual. */
  lemma GeneralOfValue(e: Expr, env: VarId -> real, atom: Expr -> Num)
    ensures TaggedValue(GeneralOf(e), env, atom) == Eval(e, env, atom)
  {
    PlusZero(Zero);
    PlusZero(Eval(e, env, atom));
    TimesOne(Eval(e, env, atom));
  }

  //
  // Negation
  //

  /** CONSTANT is negated; anything else only has its multiplier flipped. */
  function NegationExit(a: Tagged): (t: Tagged)
    requires a.Valid()
    ensures t.Valid()
    ensures a.Constant? ==> t == Constant(MinusOne.Times(a.value))
    ensures !a.Constant? ==> t == Rescaled(a, a.repn.multiplier.Times(MinusOne))
  {
    if a.Constant? then Constant(MinusOne.Times(a.value))
    else Rescaled(a, a.repn.multiplier.Times(MinusOne))
  }

  lemma NegationValue(a: Tagged, env: VarId -> real, atom: Expr -> Num)
    requires a.Valid()
    ensures TaggedValue(NegationExit(a), env, atom) == MinusOne.Times(TaggedValue(a, env, atom))
  {
    if !a.Constant? {
      var r := a.repn;
      var inner := r.constant.Plus(LinSum(r.linear, env)).Plus(ResidualValue(r.nonlinear, env, atom));
      TimesComm(r.multiplier, MinusOne);
      TimesAssoc(MinusOne, r.multiplier, inner);
    }
  }

  //
  // Product
  //

  /**
   A constant factor that is 0 or NaN wins outright, whatever the other
   operand; any other constant factor only scales the other operand's
   multiplier; two non-constant operands give a GENERAL product.
   */
  function ProductExit(a: Tagged, b: Tagged): (t: Tagged)
    requires a.Valid() && b.Valid()
    ensures t.Valid()
    ensures a.Constant? && b.Constant? ==> t == Constant(a.value.Times(b.value))
    ensures a.Constant? && !b.Constant? ==>
      if a.value.IsZero() || a.value.IsNaN() then t == Constant(a.value)
      else t == Rescaled(b, b.repn.multiplier.Times(a.value))
    ensures !a.Constant? && b.Constant? ==>
      if b.value.IsZero() || b.value.IsNaN() then t == Constant(b.value)
      else t == Rescaled(a, a.repn.multiplier.Times(b.value))
    ensures !a.Constant? && !b.Constant? ==> t == GeneralOf(Mul(TaggedToExpr(a), TaggedToExpr(b)))
  {
    match (a, b)
    case (Constant(x), Constant(y)) => Constant(x.Times(y))
    case (Constant(x), _) =>
      if x.IsZero() || x.IsNaN() then Constant(x) else Rescaled(b, b.repn.multiplier.Times(x))
    case (_, Constant(y)) =>
      if y.IsZero() || y.IsNaN() then Constant(y) else Rescaled(a, a.repn.multiplier.Times(y))
    case _ => GeneralOf(Mul(TaggedToExpr(a), TaggedToExpr(b)))
  }

  /** Scaling the multiplier of a result by `c` scales its value by `c`. */
  lemma RescaledValue(a: Tagged, c: Num, env: VarId -> real, atom: Expr -> Num)
    requires !a.Constant?
    ensures TaggedValue(Rescaled(a, a.repn.multiplier.Times(c)), env, atom) == c.Times(TaggedValue(a, env, atom))
  {
    var r := a.repn;
    var inner := r.constant.Plus(LinSum(r.linear, env)).Plus(ResidualValue(r.nonlinear, env, atom));
    TimesComm(r.multiplier, c);
    TimesAssoc(c, r.multiplier, inner);
  }

  /**
   The product rule denotes the product of its operands, unless a zero
   factor has hidden a NaN in the other one; a NaN constant factor always
   yields NaN.
   */
  lemma ProductValue(a: Tagged, b: Tagged, env: VarId -> real, atom: Expr -> Num)
    requires a.Valid() && b.Valid()
    ensures TaggedValue(a, env, atom).R? && TaggedValue(b, env, atom).R? ==>
      TaggedValue(ProductExit(a, b), env, atom) == TaggedValue(a, env, atom).Times(TaggedValue(b, env, atom))
    ensures (a.Constant? && a.value.IsNaN()) || (b.Constant? && b.value.IsNaN()) ==>
      TaggedValue(ProductExit(a, b), env, atom).IsNaN()
    ensures !a.Constant? && !b.Constant? ==>
      TaggedValue(ProductExit(a, b), env, atom) == TaggedValue(a, env, atom).Times(TaggedValue(b, env, atom))
  {
    var va, vb := TaggedValue(a, env, atom), TaggedValue(b, env, atom);
    match (a, b)
    case (Constant(x), Constant(y)) =>
    case (Constant(x), _) =>
      if !(x.IsZero() || x.IsNaN()) { RescaledValue(b, x, env, atom); }
    case (_, Constant(y)) =>
      if !(y.IsZero() || y.IsNaN()) { RescaledValue(a, y, env, atom); TimesComm(y, va); }
    case _ =>
      var e := Mul(TaggedToExpr(a), TaggedToExpr(b));
      GeneralOfValue(e, env, atom);
      TaggedToExprValue(a, env, atom);
      TaggedToExprValue(b, env, atom);
  }

  //
  // Division
  //

  /**
   A NaN constant divisor yields CONSTANT NaN; any other constant divisor
   only divides the dividend's multiplier (and raises when it is zero); a
   non-constant divisor gives a GENERAL quotient with no linear part.
   */
  function DivisionExit(a: Tagged, b: Tagged): (t: Result<Tagged, ArithError>)
    requires a.Valid() && b.Valid()
    ensures t.Success? ==> t.value.Valid()
    ensures t.Failure? <==> b.Constant? && b.value.IsZero()
    ensures b.Constant? && b.value.IsNaN() ==> t == Success(Constant(NaN))
    ensures !a.Constant? && b.Constant? && t.Success? && !b.value.IsNaN() ==>
      t.value == Rescaled(a, a.repn.multiplier.DividedBy(b.value).value)
    ensures !b.Constant? ==> t == Success(GeneralOf(Div(TaggedToExpr(a), TaggedToExpr(b))))
  {
    match (a, b)
    case (Constant(x), Constant(y)) =>
      (match x.DividedBy(y)
       case Success(q) => Success(Constant(q))
       case Failure(e) => Failure(e))
    case (_, Constant(y)) =>
      if y.IsNaN() then Success(Constant(y))
      else
        (match a.repn.multiplier.DividedBy(y)
         case Success(m) =>
           assert m.R? && m.r != 0.0 by {
             assert m.r == a.repn.multiplier.r / y.r;
           }
           Success(Rescaled(a, m))
         case Failure(e) => Failure(e))
    case _ => Success(GeneralOf(Div(TaggedToExpr(a), TaggedToExpr(b))))
  }

  /** By a constant, the division rule raises exactly when `/` does and otherwise denotes the quotient. */
  lemma DivisionValue(a: Tagged, b: Tagged, env: VarId -> real, atom: Expr -> Num)
    requires a.Valid() && b.Valid() && b.Constant?
    ensures var q := TaggedValue(a, env, atom).DividedBy(b.value);
      && (DivisionExit(a, b).Success? <==> q.Success?)
      && (q.Success? ==> TaggedValue(DivisionExit(a, b).value, env, atom) == q.value)
  {
    var c := b.value;
    if !a.Constant? && !c.IsNaN() && !c.IsZero() {
      var r := a.repn;
      var inner := r.constant.Plus(LinSum(r.linear, env)).Plus(ResidualValue(r.nonlinear, env, atom));
      TimesQuotient(r.multiplier, c, inner);
      TimesComm(inner, r.multiplier);
    }
  }

  /**
   The division rule denotes the quotient of its operands' values for any
   divisor, for any meaning `div` of the operator that agrees with `/` where
   `/` is defined and that the residual's division nodes carry.
   */
  lemma DivisionAnyValue(a: Tagged, b: Tagged, div: (Num, Num) -> Num, env: VarId -> real, atom: Expr -> Num)
    requires a.Valid() && b.Valid()
    requires forall x: Num, y: Num :: x.DividedBy(y).Success? ==> div(x, y) == x.DividedBy(y).value
    requires forall e1, e2 :: atom(Div(e1, e2)) == div(Eval(e1, env, atom), Eval(e2, env, atom))
    ensures DivisionExit(a, b).Success? ==>
      TaggedValue(DivisionExit(a, b).value, env, atom) == div(TaggedValue(a, env, atom), TaggedValue(b, env, atom))
  {
    if b.Constant? {
      DivisionValue(a, b, env, atom);
    } else {
      GeneralOfValue(Div(TaggedToExpr(a), TaggedToExpr(b)), env, atom);
      TaggedToExprValue(a, env, atom);
      TaggedToExprValue(b, env, atom);
    }
  }

  //
  // Exponentiation
  //

  /**
   An exponent that is the constant 1 returns the base unchanged; a constant
   to a constant power is left to `power` (the evaluation of the operator);
   every other combination is GENERAL.
   */
  function PowExit(a: Tagged, b: Tagged, power: (Num, Num) -> Result<Num, ArithError>): (t: Result<Tagged, ArithError>)
    requires a.Valid() && b.Valid()
    ensures t.Success? ==> t.value.Valid()
    ensures t.Failure? ==> a.Constant? && b.Constant?
    ensures a.Constant? && b.Constant? ==>
      (t.Success? <==> power(a.value, b.value).Success?)
      && (t.Success? ==> t.value == Constant(power(a.value, b.value).value))
      && (t.Failure? ==> t.error == power(a.value, b.value).error)
    ensures !a.Constant? && b.Constant? && b.value.IsOne() ==> t == Success(a)
    ensures !b.Constant? || (!a.Constant? && !b.value.IsOne()) ==>
      t == Success(GeneralOf(Pow(TaggedToExpr(a), TaggedToExpr(b))))
  {
    match (a, b)
    case (Constant(x), Constant(y)) =>
      (match power(x, y)
       case Success(v) => Success(Constant(v))
       case Failure(e) => Failure(e))
    case (_, Constant(y)) =>
      if y.IsOne() then Success(a) else Success(GeneralOf(Pow(TaggedToExpr(a), TaggedToExpr(b))))
    case _ => Success(GeneralOf(Pow(TaggedToExpr(a), TaggedToExpr(b))))
  }

  /**
   The power rule denotes the power of its operands' values, for any meaning
   `pow` of the operator that `power` evaluates faithfully, that has 1 as a
   right identity, and that the residual's power nodes carry.
   */
  lemma PowValue(a: Tagged, b: Tagged, power: (Num, Num) -> Result<Num, ArithError>, pow: (Num, Num) -> Num,
                 env: VarId -> real, atom: Expr -> Num)
    requires a.Valid() && b.Valid()
    requires forall x, y :: power(x, y).Success? ==> power(x, y).value == pow(x, y)
    requires forall x :: pow(x, One) == x
    requires forall e1, e2 :: atom(Pow(e1, e2)) == pow(Eval(e1, env, atom), Eval(e2, env, atom))
    ensures PowExit(a, b, power).Success? ==>
      TaggedValue(PowExit(a, b, power).value, env, atom) == pow(TaggedValue(a, env, atom), TaggedValue(b, env, atom))
  {
    if !a.Constant? && b.Constant? && b.value.IsOne() {
      assert pow(TaggedValue(a, env, atom), One) == TaggedValue(a, env, atom);
    } else if !a.Constant? || !b.Constant? {
      var e := Pow(TaggedToExpr(a), TaggedToExpr(b));
      GeneralOfValue(e, env, atom);
      TaggedToExprValue(a, env, atom);
      TaggedToExprValue(b, env, atom);
    }
  }

  /**
   The evaluation `_handle_pow_constant_constant` performs as written: it
   hands `apply_node_operation` the operands' `(type, value)` pairs rather
   than their values, and `**` has no meaning on pairs, so it raises
   TypeError whatever the values are.
   */
  function PowOnPairs(x: Num, y: Num): Result<Num, ArithError> {
    Failure(OperandType)
  }

  /**
   A constant to a constant power, such as `x**2` with `x` fixed at 3 and
   not yet registered: as written the rule raises TypeError, while applying
   the operator to the unwrapped values, as the unary rule does, gives 9.
   */
  lemma PowConstantsAsWritten(power: (Num, Num) -> Result<Num, ArithError>)
    requires power(R(3.0), R(2.0)) == Success(R(9.0))
    ensures PowExit(Constant(R(3.0)), Constant(R(2.0)), PowOnPairs) == Failure(OperandType)
    ensures PowExit(Constant(R(3.0)), Constant(R(2.0)), power) == Success(Constant(R(9.0)))
  {
  }

  //
  // Unary functions and abs
  //

  /** A constant argument is left to `apply`; anything else is GENERAL. */
  function UnaryExit(name: string, a: Tagged, apply: Num -> Result<Num, ArithError>): (t: Result<Tagged, ArithError>)
    requires a.Valid()
    ensures t.Success? ==> t.value.Valid()
    ensures t.Failure? ==> a.Constant?
    ensures a.Constant? ==>
      (t.Success? <==> apply(a.value).Success?)
      && (t.Success? ==> t.value == Constant(apply(a.value).value))
      && (t.Failure? ==> t.error == apply(a.value).error)
    ensures !a.Constant? ==> t == Success(GeneralOf(Unary(name, TaggedToExpr(a))))
  {
    if a.Constant? then
      match apply(a.value)
      case Success(v) => Success(Constant(v))
      case Failure(e) => Failure(e)
    else Success(GeneralOf(Unary(name, TaggedToExpr(a))))
  }

  /**
   The unary rule denotes the function applied to its operand's value, for
   any meaning `f` that `apply` evaluates faithfully and that the residual's
   nodes for this function carry.
   */
  lemma UnaryValue(name: string, a: Tagged, apply: Num -> Result<Num, ArithError>, f: Num -> Num,
                   env: VarId -> real, atom: Expr -> Num)
    requires a.Valid()
    requires forall x :: apply(x).Success? ==> apply(x).value == f(x)
    requires forall e :: atom(Unary(name, e)) == f(Eval(e, env, atom))
    ensures UnaryExit(name, a, apply).Success? ==>
      TaggedValue(UnaryExit(name, a, apply).value, env, atom) == f(TaggedValue(a, env, atom))
  {
    if !a.Constant? {
      GeneralOfValue(Unary(name, TaggedToExpr(a)), env, atom);
      TaggedToExprValue(a, env, atom);
    }
  }

  //
  // Expr_if
  //

  /**
   A constant test selects a branch: zero selects the else branch, any other
   real the then branch.  A NaN or non-constant test gives a GENERAL
   conditional over all three rebuilt operands.
   */
  function ExprIfExit(test: Tagged, ifTrue: Tagged, ifFalse: Tagged): (t: Tagged)
    requires test.Valid() && ifTrue.Valid() && ifFalse.Valid()
    ensures t.Valid()
    ensures test.Constant? && test.value.IsZero() ==> t == ifFalse
    ensures test.Constant? && test.value.R? && !test.value.IsZero() ==> t == ifTrue
    ensures !test.Constant? || test.value.IsNaN() ==>
      t == GeneralOf(Ite(TaggedToExpr(test), TaggedToExpr(ifTrue), TaggedToExpr(ifFalse)))
  {
    if test.Constant? && !test.value.IsZero() && !test.value.IsNaN() then ifTrue
    else if test.Constant? && test.value.IsZero() then ifFalse
    else GeneralOf(Ite(TaggedToExpr(test), TaggedToExpr(ifTrue), TaggedToExpr(ifFalse)))
  }

  /**
   The conditional rule denotes the conditional of its operands' values, for
   any meaning `ite` that selects the else value on 0 and the then value on
   any other real, and that the residual's conditional nodes carry.
   */
  lemma ExprIfValue(test: Tagged, ifTrue: Tagged, ifFalse: Tagged, ite: (Num, Num, Num) -> Num,
                    env: VarId -> real, atom: Expr -> Num)
    requires test.Valid() && ifTrue.Valid() && ifFalse.Valid()
    requires forall x, y :: ite(R(0.0), x, y) == y
    requires forall c, x, y :: c != 0.0 ==> ite(R(c), x, y) == x
    requires forall e1, e2, e3 :: atom(Ite(e1, e2, e3)) == ite(Eval(e1, env, atom), Eval(e2, env, atom), Eval(e3, env, atom))
    ensures TaggedValue(ExprIfExit(test, ifTrue, ifFalse), env, atom)
      == ite(TaggedValue(test, env, atom), TaggedValue(ifTrue, env, atom), TaggedValue(ifFalse, env, atom))
  {
    var Vt, Va, Vb := TaggedValue(test, env, atom), TaggedValue(ifTrue, env, atom), TaggedValue(ifFalse, env, atom);
    if test.Constant? && test.value.IsZero() {
      assert ite(R(0.0), Va, Vb) == Vb;
    } else if test.Constant? && test.value.R? {
      assert ite(R(test.value.r), Va, Vb) == Va;
    } else {
      GeneralOfValue(Ite(TaggedToExpr(test), TaggedToExpr(ifTrue), TaggedToExpr(ifFalse)), env, atom);
      TaggedToExprValue(test, env, atom);
      TaggedToExprValue(ifTrue, env, atom);
      TaggedToExprValue(ifFalse, env, atom);
    }
  }

  //
  // Named subexpressions
  //

  /** The identity of a named (shared) subexpression node. */
  type NodeId = nat

  /** The subexpression cache: node identity to its classified result. */
  type Cache = map<NodeId, Tagged>

  ghost predicate CacheValid(cache: Cache) {
    forall n :: n in cache ==> cache[n].Valid()
  }

  datatype NamedOutcome = NamedOutcome(cache: Cache, result: Tagged)

  /**
   Exit of a named subexpression: the operand's result is recorded under the
   node and returned to the parent (for LINEAR/GENERAL as a duplicate, which
   in this value model is the same value).
   */
  function NamedExit(cache: Cache, node: NodeId, a: Tagged): (r: NamedOutcome)
    requires CacheValid(cache) && a.Valid()
    ensures CacheValid(r.cache) && r.result.Valid()
    ensures node in r.cache && r.cache[node] == a && r.result == a
    ensures forall n :: n != node ==> (n in r.cache <==> n in cache)
    ensures forall n :: n in cache && n != node ==> r.cache[n] == cache[n]
  {
    NamedOutcome(cache[node := a], a)
  }
}
