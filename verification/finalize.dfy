/**
 `LinearRepnVisitor.finalizeResult`: turn the walker's final classified
 result into a stand-alone `LinearRepn`.  Zero coefficients are dropped; a
 pending multiplier other than 1 is pushed into the linear coefficients and
 the residual.  `FinalizeResult` is the rule as the visitor states it, which
 neither scales the constant nor resets the multiplier; `FinalizeCorrected`
 is the rule with both, which preserves the denoted value.
 */
module Finalize {
  import opened Wrappers
  import opened Numbers
  import opened LinearMaps
  import opened Exprs
  import opened LinearRepn
  import opened ExitRules

  ghost predicate NoZeros(m: LinMap) {
    forall k :: k in m.coef ==> !m.coef[k].IsZero()
  }

  /** Zero entries dropped, the others scaled by `mult`, in their original order. */
  function FinalLinear(m: LinMap, mult: Num): (r: LinMap)
    requires m.Valid() && mult.R? && mult.r != 0.0
    ensures r.Valid() && NoZeros(r) && r.keys == NonZeroKeys(m.keys, m.coef)
    ensures forall k :: k in r.coef <==> k in m.coef && !m.coef[k].IsZero()
    ensures forall k :: k in r.coef ==> r.coef[k] == m.coef[k].Times(mult)
  {
    var z := m.RemoveZeros();
    if mult.IsOne() then
      TimesOneAll(z.coef);
      z
    else
      ScaledFacts(z, mult);
      z.Scaled(mult)
  }

  lemma TimesOneAll(coef: map<VarId, Num>)
    ensures forall k :: k in coef ==> coef[k].Times(One) == coef[k]
  {}

  /** Scaling by a non-zero real keeps non-zero coefficients non-zero. */
  lemma ScaledFacts(z: LinMap, mult: Num)
    requires z.Valid() && NoZeros(z) && mult.R? && mult.r != 0.0
    ensures NoZeros(z.Scaled(mult))
  {
    var s := z.Scaled(mult);
    forall k | k in s.coef
      ensures !s.coef[k].IsZero()
    {
      assert s.coef[k] == z.coef[k].Times(mult);
    }
  }

  lemma FinalLinearSum(m: LinMap, mult: Num, env: VarId -> real)
    requires m.Valid() && mult.R? && mult.r != 0.0
    ensures LinSum(FinalLinear(m, mult), env) == mult.Times(LinSum(m, env))
  {
    RemoveZerosSum(m, env);
    if mult.IsOne() {
      TimesOne(LinSum(m, env));
    } else {
      ScaledSum(m.RemoveZeros(), mult, env);
    }
  }

  /** The residual times a multiplier other than 1 (`nonlinear *= mult`). */
  function FinalResidual(nl: Option<Expr>, mult: Num): (r: Option<Expr>)
    requires mult.R?
    ensures r.Some? <==> nl.Some?
    ensures mult.IsOne() ==> r == nl
  {
    if nl.Some? && !mult.IsOne() then Some(Mul(nl.value, Leaf(mult))) else nl
  }

  lemma FinalResidualValue(nl: Option<Expr>, mult: Num, env: VarId -> real, atom: Expr -> Num)
    requires mult.R?
    ensures ResidualValue(FinalResidual(nl, mult), env, atom) == ResidualValue(nl, env, atom).Times(mult)
  {
    if mult.IsOne() {
      TimesOne(ResidualValue(nl, env, atom));
    } else if nl.Some? {
      var e := Mul(nl.value, Leaf(mult));
      assert Eval(e, env, atom) == Eval(nl.value, env, atom).Times(mult);
    }
  }

  /**
   finalizeResult as the visitor states it.  A CONSTANT becomes a fresh
   result holding it; otherwise zeros are dropped and, when the multiplier
   is not 1, the linear terms and the residual are scaled by it while the
   constant and the multiplier itself are left as they were.
   */
  function FinalizeResult(t: Tagged): (r: Repn)
    requires t.Valid()
    ensures r.Valid() && NoZeros(r.linear)
    ensures t.Constant? ==> r.multiplier == One && r.constant == t.value && r.linear.IsEmpty() && r.nonlinear.None?
    ensures !t.Constant? ==> r.multiplier == t.repn.multiplier && r.constant == t.repn.constant
    ensures !t.Constant? ==> forall k :: k in r.linear.coef <==> k in t.repn.linear.coef && !t.repn.linear.coef[k].IsZero()
    ensures !t.Constant? ==> forall k :: k in r.linear.coef ==> r.linear.coef[k] == t.repn.linear.coef[k].Times(t.repn.multiplier)
    ensures !t.Constant? ==> r.linear.keys == NonZeroKeys(t.repn.linear.keys, t.repn.linear.coef)
    ensures !t.Constant? ==> (r.nonlinear.Some? <==> t.repn.nonlinear.Some?)
    ensures !t.Constant? ==> r.nonlinear == FinalResidual(t.repn.nonlinear, t.repn.multiplier)
  {
    match t
    case Constant(v) => NewRepn().(constant := v)
    case _ =>
      var a := t.repn;
      a.(linear := FinalLinear(a.linear, a.multiplier), nonlinear := FinalResidual(a.nonlinear, a.multiplier))
  }

  /** With nothing to push down (CONSTANT, or multiplier 1) the rule as written keeps the value. */
  lemma FinalizeUnscaledValue(t: Tagged, env: VarId -> real, atom: Expr -> Num)
    requires t.Valid() && (t.Constant? || t.repn.multiplier.IsOne())
    ensures Value(FinalizeResult(t), env, atom) == TaggedValue(t, env, atom)
  {
    if t.Constant? {
      PlusZero(t.value);
      PlusZero(t.value.Plus(Zero));
      TimesOne(t.value);
    } else {
      FinalLinearSum(t.repn.linear, One, env);
      TimesOne(LinSum(t.repn.linear, env));
    }
  }

  /** `2*(x + 1)`: the product rule leaves a LINEAR result with pending multiplier 2. */
  function TwiceXPlusOne(): (t: Tagged)
    ensures t.Valid() && t == Linear(Repn(R(2.0), One, EmptyMap().Put(0, One), None))
  {
    var x1 := Linear(NewRepn().(constant := One, linear := EmptyMap().Put(0, One)));
    ProductExit(Constant(R(2.0)), x1)
  }

  /** What the rule as written makes of `2*(x + 1)`: the multiplier stays 2 and the constant stays 1. */
  lemma FinalizedTwiceXPlusOne()
    ensures FinalizeResult(TwiceXPlusOne()) == Repn(R(2.0), One, FinalLinear(EmptyMap().Put(0, One), R(2.0)), None)
  {
  }

  /**
   At x = 1, `2*(x + 1)` is 4, but what the rule as written returns is 6
   when read with its left-over multiplier and 3 when read without it.
   */
  lemma FinalizeScaledCounterexample()
    ensures var t := TwiceXPlusOne();
      var env := (k: VarId) => 1.0;
      var atom := (e: Expr) => Zero;
      && TaggedValue(t, env, atom) == R(4.0)
      && Value(FinalizeResult(t), env, atom) == R(6.0)
      && Value(FinalizeResult(t).(multiplier := One), env, atom) == R(3.0)
  {
    var t := TwiceXPlusOne();
    var env := (k: VarId) => 1.0;
    var atom := (e: Expr) => Zero;
    var m := EmptyMap().Put(0, One);
    assert LinSum(m, env) == One by {
      PutNewSum(EmptyMap(), 0, One, env);
    }
    var two := R(2.0);
    FinalizedTwiceXPlusOne();
    FinalLinearSum(m, two, env);
    assert LinSum(FinalLinear(m, two), env) == two;
  }

  /**
   finalizeResult with the multiplier fully pushed down: the constant is
   scaled too and the multiplier becomes 1.
   */
  function FinalizeCorrected(t: Tagged): (r: Repn)
    requires t.Valid()
    ensures r.Valid() && NoZeros(r.linear) && r.multiplier == One
    ensures t.Constant? ==> r.constant == t.value && r.linear.IsEmpty() && r.nonlinear.None?
    ensures !t.Constant? ==> r.constant == t.repn.constant.Times(t.repn.multiplier)
    ensures !t.Constant? ==> forall k :: k in r.linear.coef <==> k in t.repn.linear.coef && !t.repn.linear.coef[k].IsZero()
    ensures !t.Constant? ==> forall k :: k in r.linear.coef ==> r.linear.coef[k] == t.repn.linear.coef[k].Times(t.repn.multiplier)
    ensures !t.Constant? ==> r.linear.keys == NonZeroKeys(t.repn.linear.keys, t.repn.linear.coef)
    ensures !t.Constant? ==> (r.nonlinear.Some? <==> t.repn.nonlinear.Some?)
    ensures !t.Constant? ==> r.nonlinear == FinalResidual(t.repn.nonlinear, t.repn.multiplier)
  {
    match t
    case Constant(v) => NewRepn().(constant := v)
    case _ =>
      var a := t.repn;
      Repn(One, a.constant.Times(a.multiplier), FinalLinear(a.linear, a.multiplier), FinalResidual(a.nonlinear, a.multiplier))
  }

  /** The corrected rule always preserves the denoted value. */
  lemma FinalizeCorrectedValue(t: Tagged, env: VarId -> real, atom: Expr -> Num)
    requires t.Valid()
    ensures Value(FinalizeCorrected(t), env, atom) == TaggedValue(t, env, atom)
  {
    if t.Constant? {
      PlusZero(t.value);
      PlusZero(t.value.Plus(Zero));
      TimesOne(t.value);
    } else {
      var a := t.repn;
      var m, c, L, N := a.multiplier, a.constant, LinSum(a.linear, env), ResidualValue(a.nonlinear, env, atom);
      var r := FinalizeCorrected(t);
      FinalLinearSum(a.linear, m, env);
      FinalResidualValue(a.nonlinear, m, env, atom);
      calc {
        Value(r, env, atom);
        One.Times(c.Times(m).Plus(m.Times(L)).Plus(N.Times(m)));
        { TimesOne(c.Times(m).Plus(m.Times(L)).Plus(N.Times(m))); TimesComm(c, m); TimesComm(N, m); }
        m.Times(c).Plus(m.Times(L)).Plus(m.Times(N));
        { Distrib(m, c, L); }
        m.Times(c.Plus(L)).Plus(m.Times(N));
        { Distrib(m, c.Plus(L), N); }
        m.Times(c.Plus(L).Plus(N));
      }
    }
  }
}
