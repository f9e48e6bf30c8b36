/**
 The nonlinear residual, kept abstract: a tree over numbers and variable
 identities, built by the rules that cannot stay affine.  `Eval` gives the
 arithmetic nodes their meaning; division, power, conditionals and unary
 functions are left to an arbitrary `atom` evaluator, since no rule of the
 canonicaliser looks inside them.
 */
module Exprs {
  import opened Numbers
  import opened LinearMaps

  /** A monomial `coef * var`. */
  datatype Term = Term(coef: Num, id: VarId)

  datatype Expr =
    | Leaf(value: Num)
    | VarLeaf(id: VarId)
    | LinearSum(terms: seq<Term>)
    | Sum(left: Expr, right: Expr)
    | Mul(left: Expr, right: Expr)
    | Div(left: Expr, right: Expr)
    | Pow(base: Expr, exponent: Expr)
    | Ite(test: Expr, ifTrue: Expr, ifFalse: Expr)
    | Unary(name: string, arg: Expr)

  function TermsValue(ts: seq<Term>, env: VarId -> real): Num {
    if |ts| == 0 then Zero
    else ts[0].coef.Times(R(env(ts[0].id))).Plus(TermsValue(ts[1..], env))
  }

  function Eval(e: Expr, env: VarId -> real, atom: Expr -> Num): Num {
    match e
    case Leaf(v) => v
    case VarLeaf(id) => R(env(id))
    case LinearSum(ts) => TermsValue(ts, env)
    case Sum(a, b) => Eval(a, env, atom).Plus(Eval(b, env, atom))
    case Mul(a, b) => Eval(a, env, atom).Times(Eval(b, env, atom))
    case _ => atom(e)
  }

  /** The monomials `coef*var` of every entry whose coefficient is truthy, in key order. */
  function TermsOf(keys: seq<VarId>, coef: map<VarId, Num>): (ts: seq<Term>)
    ensures forall t :: t in ts ==> t.id in keys && !t.coef.IsZero()
  {
    if |keys| == 0 then []
    else
      var c := if keys[0] in coef then coef[keys[0]] else Zero;
      if c.IsZero() then TermsOf(keys[1..], coef)
      else [Term(c, keys[0])] + TermsOf(keys[1..], coef)
  }

  /** Leaving out the zero monomials does not change the value of real-valued variables. */
  lemma {:induction false} TermsOfValue(keys: seq<VarId>, coef: map<VarId, Num>, env: VarId -> real)
    ensures TermsValue(TermsOf(keys, coef), env) == SumOver(keys, coef, env)
  {
    if |keys| > 0 {
      var k := keys[0];
      var c := if k in coef then coef[k] else Zero;
      TermsOfValue(keys[1..], coef, env);
      if c.IsZero() {
        ZeroTimesReal(env(k));
        PlusZero(SumOver(keys[1..], coef, env));
      } else {
        var ts := [Term(c, k)] + TermsOf(keys[1..], coef);
        assert ts[1..] == TermsOf(keys[1..], coef);
      }
    }
  }

  /** The monomials of `keys` plus a constant evaluate to the affine value. */
  lemma AffineSumValue(keys: seq<VarId>, coef: map<VarId, Num>, c: Num, env: VarId -> real, atom: Expr -> Num)
    ensures Eval(Sum(LinearSum(TermsOf(keys, coef)), Leaf(c)), env, atom) == c.Plus(SumOver(keys, coef, env))
  {
    var ts := TermsOf(keys, coef);
    var s := SumOver(keys, coef, env);
    TermsOfValue(keys, coef, env);
    assert Eval(LinearSum(ts), env, atom) == s;
    assert Eval(Leaf(c), env, atom) == c;
    PlusComm(s, c);
  }
}
