/**
 The canonical result of the linear canonicaliser (`LinearRepn`): a pending
 multiplier, a constant, an insertion-ordered map from variable identity to
 coefficient and an optional nonlinear residual, together with the
 classification tag every rule returns with it.
 */
module LinearRepn {
  import opened Wrappers
  import opened Numbers
  import opened LinearMaps
  import opened Exprs

  datatype Repn = Repn(multiplier: Num, constant: Num, linear: LinMap, nonlinear: Option<Expr>) {

    /**
     The multiplier only ever becomes a product or quotient of 1 and non-zero,
     non-NaN constants (zero and NaN factors short-circuit to CONSTANT).
     */
    ghost predicate Valid() {
      multiplier.R? && multiplier.r != 0.0 && linear.Valid()
    }
  }

  /** `(ExprType, payload)`: a bare number for CONSTANT, a result otherwise. */
  datatype Tagged = Constant(value: Num) | Linear(repn: Repn) | General(repn: Repn) {

    /** The tag agrees with the payload, and the payload is a valid result. */
    ghost predicate Valid() {
      match this
      case Constant(_) => true
      case Linear(r) => r.Valid() && !r.linear.IsEmpty() && r.nonlinear.None?
      case General(r) => r.Valid() && r.nonlinear.Some?
    }
  }

  /** `LinearRepn()`: multiplier 1, constant 0, no linear terms, no residual. */
  function NewRepn(): (r: Repn)
    ensures r.Valid() && r.linear.IsEmpty() && r.nonlinear.None?
    ensures Classify(r) == Constant(Zero)
    ensures forall env, atom :: Value(r, env, atom) == Zero
  {
    Repn(One, Zero, EmptyMap(), None)
  }

  /**
   `walker_exitNode`: GENERAL iff there is a residual; otherwise LINEAR iff
   some linear term exists; otherwise CONSTANT with `multiplier*constant`.
   */
  function Classify(r: Repn): (t: Tagged)
    ensures r.Valid() ==> t.Valid()
    ensures t.General? <==> r.nonlinear.Some?
    ensures t.Linear? <==> r.nonlinear.None? && !r.linear.IsEmpty()
    ensures t.Constant? ==> t.value == r.multiplier.Times(r.constant)
    ensures !t.Constant? ==> t.repn == r
  {
    if r.nonlinear.Some? then General(r)
    else if !r.linear.IsEmpty() then Linear(r)
    else Constant(r.multiplier.Times(r.constant))
  }

  //
  // Meaning of a result under an assignment of reals to variables.
  //

  function ResidualValue(nl: Option<Expr>, env: VarId -> real, atom: Expr -> Num): Num {
    if nl.Some? then Eval(nl.value, env, atom) else Zero
  }

  /** `multiplier * (constant + sum(coef*x) + nonlinear)` */
  function Value(r: Repn, env: VarId -> real, atom: Expr -> Num): Num {
    r.multiplier.Times(r.constant.Plus(LinSum(r.linear, env)).Plus(ResidualValue(r.nonlinear, env, atom)))
  }

  function TaggedValue(t: Tagged, env: VarId -> real, atom: Expr -> Num): Num {
    match t
    case Constant(v) => v
    case Linear(r) => Value(r, env, atom)
    case General(r) => Value(r, env, atom)
  }

  /** Classifying a result never changes what it denotes. */
  lemma ClassifyValue(r: Repn, env: VarId -> real, atom: Expr -> Num)
    ensures TaggedValue(Classify(r), env, atom) == Value(r, env, atom)
  {
    if r.nonlinear.None? && r.linear.IsEmpty() {
      PlusZero(r.constant);
      PlusZero(r.constant.Plus(Zero));
    }
  }

  //
  // append: the n-ary sum fold
  //

  /** The residual of a child, scaled by its pending multiplier when that is not 1. */
  function ScaledResidual(mult: Num, nl: Expr): Expr {
    if !mult.IsOne() then Mul(Leaf(mult), nl) else nl
  }

  /**
   `LinearRepn.append`: a CONSTANT child only adds to the constant; any other
   child adds `mult*constant`, merges its linear terms scaled by `mult` and
   appends its residual scaled by `mult`.
   */
  function Append(self: Repn, other: Tagged): (r: Repn)
    requires self.Valid() && other.Valid()
    ensures r.Valid() && r.multiplier == self.multiplier
    ensures other.Constant? ==> r == self.(constant := self.constant.Plus(other.value))
    ensures !other.Constant? ==>
      var o := other.repn;
      && r.constant == self.constant.Plus(o.multiplier.Times(o.constant))
      && (forall k :: k in r.linear.coef <==> k in self.linear.coef || k in o.linear.coef)
      && (forall k :: k in self.linear.coef && k !in o.linear.coef ==> r.linear.coef[k] == self.linear.coef[k])
      && (forall k :: k in self.linear.coef && k in o.linear.coef ==>
            r.linear.coef[k] == self.linear.coef[k].Plus(o.multiplier.Times(o.linear.coef[k])))
      && (forall k :: k !in self.linear.coef && k in o.linear.coef ==>
            r.linear.coef[k] == o.multiplier.Times(o.linear.coef[k]))
      && self.linear.keys <= r.linear.keys
      && r.linear.keys == self.linear.keys + NewKeys(o.linear.keys, self.linear.coef)
      && (r.nonlinear.None? <==> self.nonlinear.None? && o.nonlinear.None?)
      && (o.nonlinear.None? ==> r.nonlinear == self.nonlinear)
  {
    match other
    case Constant(v) => self.(constant := self.constant.Plus(v))
    case Linear(o) => AppendRepn(self, o)
    case General(o) => AppendRepn(self, o)
  }

  function AppendRepn(self: Repn, o: Repn): (r: Repn)
    requires self.Valid() && o.Valid()
    ensures r.Valid()
  {
    var mult := o.multiplier;
    var linear := if !o.linear.IsEmpty() then MergeDict(mult, self.linear, o.linear) else self.linear;
    var nonlinear :=
      if o.nonlinear.None? then self.nonlinear
      else if self.nonlinear.None? then Some(ScaledResidual(mult, o.nonlinear.value))
      else Some(Sum(self.nonlinear.value, ScaledResidual(mult, o.nonlinear.value)));
    Repn(self.multiplier, self.constant.Plus(mult.Times(o.constant)), linear, nonlinear)
  }

  lemma AppendAlgebra(c: Num, l: Num, n: Num, m: Num, oc: Num, ol: Num, on: Num)
    requires m.R?
    ensures One.Times(c.Plus(m.Times(oc)).Plus(l.Plus(m.Times(ol))).Plus(n.Plus(m.Times(on))))
         == One.Times(c.Plus(l).Plus(n)).Plus(m.Times(oc.Plus(ol).Plus(on)))
  {
    if c.R? && l.R? && n.R? && oc.R? && ol.R? && on.R? {
      assert m.r * (oc.r + ol.r + on.r) == m.r * oc.r + m.r * ol.r + m.r * on.r;
    }
  }

  /** A sum denotes the sum of its parts: appending adds the child's value. */
  lemma AppendValue(self: Repn, other: Tagged, env: VarId -> real, atom: Expr -> Num)
    requires self.Valid() && other.Valid() && self.multiplier == One
    ensures Value(Append(self, other), env, atom) == Value(self, env, atom).Plus(TaggedValue(other, env, atom))
  {
    var c, l, n := self.constant, LinSum(self.linear, env), ResidualValue(self.nonlinear, env, atom);
    match other
    case Constant(v) =>
      TimesOne(c.Plus(v).Plus(l).Plus(n));
      TimesOne(c.Plus(l).Plus(n));
    case Linear(o) => AppendRepnValue(self, o, env, atom);
    case General(o) => AppendRepnValue(self, o, env, atom);
  }

  /** The linear part of `append`: the other map, scaled, is merged in. */
  lemma AppendLinearValue(self: Repn, o: Repn, env: VarId -> real)
    requires self.Valid() && o.Valid() && self.multiplier == One
    ensures LinSum(AppendRepn(self, o).linear, env) == LinSum(self.linear, env).Plus(o.multiplier.Times(LinSum(o.linear, env)))
  {
    if !o.linear.IsEmpty() {
      MergeDictSum(o.multiplier, self.linear, o.linear, env);
    } else {
      PlusZero(LinSum(self.linear, env));
    }
  }

  /** The residual part of `append`: the other residual, scaled, is added on. */
  lemma AppendResidualValue(self: Repn, o: Repn, env: VarId -> real, atom: Expr -> Num)
    requires self.Valid() && o.Valid() && self.multiplier == One
    ensures ResidualValue(AppendRepn(self, o).nonlinear, env, atom)
      == ResidualValue(self.nonlinear, env, atom).Plus(o.multiplier.Times(ResidualValue(o.nonlinear, env, atom)))
  {
    var m, n, on := o.multiplier, ResidualValue(self.nonlinear, env, atom), ResidualValue(o.nonlinear, env, atom);
    if o.nonlinear.Some? {
      assert Eval(ScaledResidual(m, o.nonlinear.value), env, atom) == m.Times(on) by { TimesOne(on); }
      if self.nonlinear.None? { PlusZero(m.Times(on)); }
    } else {
      PlusZero(n);
    }
  }

  /** Appending a repn adds its value, whatever its multiplier. */
  lemma AppendRepnValue(self: Repn, o: Repn, env: VarId -> real, atom: Expr -> Num)
    requires self.Valid() && o.Valid() && self.multiplier == One
    ensures Value(AppendRepn(self, o), env, atom) == Value(self, env, atom).Plus(Value(o, env, atom))
  {
    AppendLinearValue(self, o, env);
    AppendResidualValue(self, o, env, atom);
    AppendAlgebra(self.constant, LinSum(self.linear, env), ResidualValue(self.nonlinear, env, atom),
      o.multiplier, o.constant, LinSum(o.linear, env), ResidualValue(o.nonlinear, env, atom));
  }

  /** Folds the children of an n-ary sum into one accumulator, left to right. */
  function AppendAll(acc: Repn, children: seq<Tagged>): (r: Repn)
    requires acc.Valid() && forall i :: 0 <= i < |children| ==> children[i].Valid()
    ensures r.Valid() && r.multiplier == acc.multiplier
    decreases |children|
  {
    if |children| == 0 then acc
    else
      var acc' := Append(acc, children[0]);
      assert acc'.Valid() && acc'.multiplier == acc.multiplier;
      assert forall i :: 0 <= i < |children[1..]| ==> children[1..][i] == children[i + 1];
      AppendAll(acc', children[1..])
  }

  function TaggedSum(children: seq<Tagged>, env: VarId -> real, atom: Expr -> Num): Num {
    if |children| == 0 then Zero
    else TaggedValue(children[0], env, atom).Plus(TaggedSum(children[1..], env, atom))
  }

  /** Exit of an n-ary `SumExpression`: the accumulator seeded by `enterNode`, classified. */
  function SumExit(children: seq<Tagged>): (t: Tagged)
    requires forall i :: 0 <= i < |children| ==> children[i].Valid()
    ensures t.Valid()
  {
    Classify(AppendAll(NewRepn(), children))
  }

  lemma {:induction false} AppendAllValue(acc: Repn, children: seq<Tagged>, env: VarId -> real, atom: Expr -> Num)
    requires acc.Valid() && acc.multiplier == One
    requires forall i :: 0 <= i < |children| ==> children[i].Valid()
    ensures Value(AppendAll(acc, children), env, atom) == Value(acc, env, atom).Plus(TaggedSum(children, env, atom))
    decreases |children|
  {
    if |children| == 0 {
      PlusZero(Value(acc, env, atom));
    } else {
      var acc' := Append(acc, children[0]);
      AppendValue(acc, children[0], env, atom);
      AppendAllValue(acc', children[1..], env, atom);
      PlusAssoc(Value(acc, env, atom), TaggedValue(children[0], env, atom), TaggedSum(children[1..], env, atom));
    }
  }

  /** An n-ary sum's canonical form denotes the sum of its children. */
  lemma SumExitValue(children: seq<Tagged>, env: VarId -> real, atom: Expr -> Num)
    requires forall i :: 0 <= i < |children| ==> children[i].Valid()
    ensures TaggedValue(SumExit(children), env, atom) == TaggedSum(children, env, atom)
  {
    AppendAllValue(NewRepn(), children, env, atom);
    ClassifyValue(AppendAll(NewRepn(), children), env, atom);
    PlusZero(TaggedSum(children, env, atom));
  }

  //
  // to_expression: rebuild an expression from a classified result
  //

  /** The monomials with a truthy coefficient plus the constant. */
  function AffineExpr(r: Repn): Expr {
    if !r.linear.IsEmpty() then Sum(LinearSum(TermsOf(r.linear.keys, r.linear.coef)), Leaf(r.constant))
    else Leaf(r.constant)
  }

  /**
   `LinearRepn.to_expression`: the affine part, plus the residual when
   present, times the multiplier when it is not 1.
   */
  function ToExpr(r: Repn): Expr {
    var whole := if r.nonlinear.Some? then Sum(AffineExpr(r), r.nonlinear.value) else AffineExpr(r);
    if !r.multiplier.IsOne() then Mul(whole, Leaf(r.multiplier)) else whole
  }

  /** `to_expression[tag]`: a CONSTANT payload is its own expression. */
  function TaggedToExpr(t: Tagged): Expr {
    match t
    case Constant(v) => Leaf(v)
    case Linear(r) => ToExpr(r)
    case General(r) => ToExpr(r)
  }

  /** Rebuilding an expression from a result preserves what it denotes. */
  lemma AffineExprValue(r: Repn, env: VarId -> real, atom: Expr -> Num)
    ensures Eval(AffineExpr(r), env, atom) == r.constant.Plus(LinSum(r.linear, env))
  {
    if !r.linear.IsEmpty() {
      AffineSumValue(r.linear.keys, r.linear.coef, r.constant, env, atom);
    } else {
      PlusZero(r.constant);
    }
  }

  /** Rebuilding an expression from a result preserves what it denotes. */
  lemma ToExprValue(r: Repn, env: VarId -> real, atom: Expr -> Num)
    ensures Eval(ToExpr(r), env, atom) == Value(r, env, atom)
  {
    var a := r.constant.Plus(LinSum(r.linear, env));
    var n := ResidualValue(r.nonlinear, env, atom);
    var whole := if r.nonlinear.Some? then Sum(AffineExpr(r), r.nonlinear.value) else AffineExpr(r);
    AffineExprValue(r, env, atom);
    assert Eval(whole, env, atom) == a.Plus(n) by {
      if r.nonlinear.None? { PlusZero(a); }
    }
    if r.multiplier.IsOne() {
      TimesOne(a.Plus(n));
    } else {
      TimesComm(a.Plus(n), r.multiplier);
    }
  }

  lemma TaggedToExprValue(t: Tagged, env: VarId -> real, atom: Expr -> Num)
    ensures Eval(TaggedToExpr(t), env, atom) == TaggedValue(t, env, atom)
  {
    if !t.Constant? { ToExprValue(t.repn, env, atom); }
  }
}
