/**
 The arithmetic of `ScaleModel`: scaling the bounds and value of each
 variable, the bounds of each constraint and its dual, and mapping values
 and multipliers of the scaled model back (`propagate_solution`).  The
 factor map is built from the `scaling_factor` suffixes.
 */
module Scaling {
  import opened Wrappers
  import opened SuffixFinder

  //
  // The factor map
  //

  /** A Var, Constraint or Objective data object, with its container and its block chain. */
  datatype Located = Located(id: ComponentId, container: ComponentId, chain: seq<Block<SuffixValue>>)

  datatype ScalingError = UnknownMethod | Factor(e: FactorError) | ZeroDivision | NoValue | MissingEntry

  function IdsOf(comps: seq<Located>): set<ComponentId> {
    set c | c in comps :: c.id
  }

  /** Splitting off the first component, and where the others went. */
  lemma IdsOfCons(comps: seq<Located>)
    requires |comps| > 0
    ensures IdsOf(comps) == {comps[0].id} + IdsOf(comps[1..])
    ensures forall i :: 0 < i < |comps| ==> comps[1..][i - 1] == comps[i]
  {
    assert comps == [comps[0]] + comps[1..];
  }

  /** The loop filling the factor map: later entries overwrite earlier ones; the first conversion error stops it. */
  function FactorMapFrom(acc: map<ComponentId, real>, comps: seq<Located>): (r: Result<map<ComponentId, real>, ScalingError>)
    ensures r.Success? ==> r.value.Keys == acc.Keys + IdsOf(comps)
    ensures r.Failure? ==> r.error.Factor?
    ensures r.Success? <==> forall i :: 0 <= i < |comps| ==> ScalingFactor(comps[i].id, comps[i].container, comps[i].chain).Success?
    decreases |comps|
  {
    if |comps| == 0 then Success(acc)
    else
      var c := comps[0];
      var tail := comps[1..];
      IdsOfCons(comps);
      match ScalingFactor(c.id, c.container, c.chain)
      case Failure(e) => Failure(Factor(e))
      case Success(f) => FactorMapFrom(acc[c.id := f], tail)
  }

  /** `component_scaling_factor_map`: one factor per component, or the first conversion error. */
  function FactorMap(scalingMethod: string, comps: seq<Located>): (r: Result<map<ComponentId, real>, ScalingError>)
    ensures scalingMethod != "user" ==> r == Failure(UnknownMethod)
    ensures r.Success? ==> r.value.Keys == IdsOf(comps)
    ensures r.Success? <==> scalingMethod == "user" && forall i :: 0 <= i < |comps| ==>
      ScalingFactor(comps[i].id, comps[i].container, comps[i].chain).Success?
  {
    if scalingMethod != "user" then Failure(UnknownMethod) else FactorMapFrom(map[], comps)
  }

  /** The factor recorded for a component is its own, unless a later component has the same identity. */
  lemma {:induction false} FactorMapFromValue(acc: map<ComponentId, real>, comps: seq<Located>, i: nat)
    requires FactorMapFrom(acc, comps).Success? && i < |comps|
    requires forall j :: i < j < |comps| ==> comps[j].id != comps[i].id
    ensures FactorMapFrom(acc, comps).value[comps[i].id] == ScalingFactor(comps[i].id, comps[i].container, comps[i].chain).value
    decreases |comps|
  {
    var c := comps[0];
    var tail := comps[1..];
    var f := ScalingFactor(c.id, c.container, c.chain).value;
    if i > 0 {
      assert forall j :: 0 <= j < |tail| ==> tail[j] == comps[j + 1];
      FactorMapFromValue(acc[c.id := f], tail, i - 1);
    } else {
      AbsentKept(acc[c.id := f], tail, c.id);
    }
  }

  /** A key no remaining component carries keeps its accumulated factor. */
  lemma {:induction false} AbsentKept(acc: map<ComponentId, real>, comps: seq<Located>, k: ComponentId)
    requires FactorMapFrom(acc, comps).Success? && k in acc
    requires forall j :: 0 <= j < |comps| ==> comps[j].id != k
    ensures FactorMapFrom(acc, comps).value[k] == acc[k]
    decreases |comps|
  {
    if |comps| > 0 {
      var c := comps[0];
      var tail := comps[1..];
      assert forall j :: 0 <= j < |tail| ==> tail[j] == comps[j + 1];
      AbsentKept(acc[c.id := ScalingFactor(c.id, c.container, c.chain).value], tail, k);
    }
  }

  lemma FactorMapValue(comps: seq<Located>, i: nat)
    requires FactorMap("user", comps).Success? && i < |comps|
    requires forall j :: i < j < |comps| ==> comps[j].id != comps[i].id
    ensures FactorMap("user", comps).value[comps[i].id] == ScalingFactor(comps[i].id, comps[i].container, comps[i].chain).value
  {
    FactorMapFromValue(map[], comps, i);
  }

  //
  // Variables
  //

  datatype VarState = VarState(lb: Option<real>, ub: Option<real>, value: Option<real>)

  function Times(b: Option<real>, f: real): Option<real> {
    if b.Some? then Some(b.value * f) else None
  }

  /** Each present bound and the value are multiplied by the factor; a negative factor swaps the bounds. */
  function ScaleVar(v: VarState, f: real): (r: VarState)
    ensures r.value == Times(v.value, f)
    ensures f >= 0.0 ==> r.lb == Times(v.lb, f) && r.ub == Times(v.ub, f)
    ensures f < 0.0 ==> r.lb == Times(v.ub, f) && r.ub == Times(v.lb, f)
  {
    var lb, ub := Times(v.lb, f), Times(v.ub, f);
    if f < 0.0 then VarState(ub, lb, Times(v.value, f)) else VarState(lb, ub, Times(v.value, f))
  }

  /** `x` lies within the (possibly absent) bounds. */
  predicate Within(lb: Option<real>, ub: Option<real>, x: real) {
    (lb.None? || lb.value <= x) && (ub.None? || x <= ub.value)
  }

  predicate Ordered(lb: Option<real>, ub: Option<real>) {
    lb.Some? && ub.Some? ==> lb.value <= ub.value
  }

  /** Scaling keeps the bounds ordered, whatever the sign of the factor. */
  lemma ScaleVarOrdered(v: VarState, f: real)
    requires Ordered(v.lb, v.ub)
    ensures Ordered(ScaleVar(v, f).lb, ScaleVar(v, f).ub)
  {
    if v.lb.Some? && v.ub.Some? {
      if f >= 0.0 {
        MulLeMono(v.lb.value, v.ub.value, f);
      } else {
        MulLeAnti(v.lb.value, v.ub.value, f);
      }
    }
  }

  lemma MulLeMono(a: real, b: real, f: real)
    requires a <= b && f >= 0.0
    ensures a * f <= b * f
  {
    assert (b - a) * f >= 0.0;
  }

  lemma MulLeAnti(a: real, b: real, f: real)
    requires a <= b && f <= 0.0
    ensures b * f <= a * f
  {
    assert (b - a) * (-f) >= 0.0;
  }

  /** For a non-zero factor, a point is within the bounds exactly when the scaled point is within the scaled bounds. */
  lemma ScaleVarWithin(v: VarState, f: real, x: real)
    requires f != 0.0
    ensures Within(v.lb, v.ub, x) <==> Within(ScaleVar(v, f).lb, ScaleVar(v, f).ub, x * f)
  {
    WithinScaled(v.lb, v.ub, x, f);
  }

  /** Scaling a point and its bounds by a non-zero factor (swapping the bounds when it is negative) keeps membership. */
  lemma WithinScaled(lb: Option<real>, ub: Option<real>, x: real, f: real)
    requires f != 0.0
    ensures f > 0.0 ==> (Within(lb, ub, x) <==> Within(Times(lb, f), Times(ub, f), x * f))
    ensures f < 0.0 ==> (Within(lb, ub, x) <==> Within(Times(ub, f), Times(lb, f), x * f))
  {
    BoundScaled(lb, x, f, true);
    BoundScaled(ub, x, f, false);
  }

  /** `b <= x` (when `below`) or `x <= b` holds, or there is no bound. */
  predicate Respects(b: Option<real>, x: real, below: bool) {
    b.None? || (if below then b.value <= x else x <= b.value)
  }

  lemma BoundScaled(b: Option<real>, x: real, f: real, below: bool)
    requires f != 0.0
    ensures f > 0.0 ==> (Respects(b, x, below) <==> Respects(Times(b, f), x * f, below))
    ensures f < 0.0 ==> (Respects(b, x, below) <==> Respects(Times(b, f), x * f, !below))
  {
    if b.Some? {
      var a := b.value;
      var af, xf := a * f, x * f;
      assert Times(b, f).value == af;
      if below { ScaledLe(a, x, f); } else { ScaledLe(x, a, f); }
    }
  }

  /** Multiplying both sides by a non-zero factor keeps `<=` when it is positive and reverses it when it is negative. */
  lemma ScaledLe(a: real, b: real, f: real)
    requires f != 0.0
    ensures f > 0.0 ==> (a <= b <==> a * f <= b * f)
    ensures f < 0.0 ==> (a <= b <==> b * f <= a * f)
  {
    if a <= b {
      if f > 0.0 { MulLeMono(a, b, f); } else { MulLeAnti(a, b, f); }
    } else {
      assert (a - b) * f != 0.0;
      if f > 0.0 { MulLeMono(b, a, f); } else { MulLeAnti(b, a, f); }
    }
  }

  /** Division by a non-zero real undoes multiplication, both ways round. */
  lemma DivCancel(x: real, f: real)
    requires f != 0.0
    ensures (x / f) * f == x && (x * f) / f == x
  {
    var q := (x * f) / f;
    assert q * f == x * f;
    assert (q - x) * f == 0.0;
  }

  type DataId = nat

  /**
   The variable pass: data objects are visited in `order`, which may list a
   data object more than once (through references); each is scaled once,
   by its own factor. Building the substitution `v / factor` comes first,
   so a zero factor raises before that variable's bounds are touched.
   */
  method ScaleVariables(order: seq<DataId>, vars: map<DataId, VarState>, factor: map<DataId, real>)
    returns (r: Result<map<DataId, VarState>, ScalingError>)
    requires forall d :: d in order ==> d in vars && d in factor
    ensures r.Failure? <==> exists i :: 0 <= i < |order| && factor[order[i]] == 0.0
    ensures r.Failure? ==> r.error == ZeroDivision
    ensures r.Success? ==> r.value.Keys == vars.Keys
    ensures r.Success? ==> forall d :: d in vars && d in order ==> r.value[d] == ScaleVar(vars[d], factor[d])
    ensures r.Success? ==> forall d :: d in vars && d !in order ==> r.value[d] == vars[d]
  {
    var alreadyScaled: set<DataId> := {};
    var scaled := vars;
    var i := 0;
    while i < |order|
      invariant 0 <= i <= |order|
      invariant scaled.Keys == vars.Keys
      invariant alreadyScaled == set j | 0 <= j < i :: order[j]
      invariant forall j :: 0 <= j < i ==> factor[order[j]] != 0.0
      invariant forall d :: d in alreadyScaled ==> scaled[d] == ScaleVar(vars[d], factor[d])
      invariant forall d :: d in vars && d !in alreadyScaled ==> scaled[d] == vars[d]
    {
      var d := order[i];
      if d !in alreadyScaled {
        alreadyScaled := alreadyScaled + {d};
        if factor[d] == 0.0 {
          return Failure(ZeroDivision);
        }
        scaled := scaled[d := ScaleVar(vars[d], factor[d])];
      }
      i := i + 1;
    }
    r := Success(scaled);
  }

  //
  // Constraints
  //

  /** An equality constraint has one right-hand side, held as both bounds. */
  datatype ConState = ConState(lower: Option<real>, upper: Option<real>, equality: bool) {
    ghost predicate Valid() {
      equality ==> lower.Some? && lower == upper
    }
  }

  /**
   Both bounds are multiplied by the factor and swapped when it is negative;
   an equality constraint is reset from its (new) lower bound alone.
   */
  function ScaleCon(c: ConState, f: real): (r: ConState)
    requires c.Valid()
    ensures r.Valid() && r.equality == c.equality
    ensures !c.equality && f >= 0.0 ==> r.lower == Times(c.lower, f) && r.upper == Times(c.upper, f)
    ensures !c.equality && f < 0.0 ==> r.lower == Times(c.upper, f) && r.upper == Times(c.lower, f)
    ensures c.equality ==> r.lower == Times(c.lower, f) && r.upper == r.lower
  {
    var lower := if f < 0.0 then Times(c.upper, f) else Times(c.lower, f);
    var upper := if f < 0.0 then Times(c.lower, f) else Times(c.upper, f);
    if c.equality then ConState(lower, lower, true) else ConState(lower, upper, false)
  }

  /** A body value satisfies the constraint exactly when the scaled body value satisfies the scaled constraint. */
  lemma ScaleConSatisfied(c: ConState, f: real, body: real)
    requires c.Valid() && f != 0.0
    ensures Within(c.lower, c.upper, body) <==> Within(ScaleCon(c, f).lower, ScaleCon(c, f).upper, f * body)
  {
    var r := ScaleCon(c, f);
    assert r.lower == (if f < 0.0 then Times(c.upper, f) else Times(c.lower, f));
    assert r.upper == (if f < 0.0 then Times(c.lower, f) else Times(c.upper, f));
    assert f * body == body * f;
    WithinScaled(c.lower, c.upper, body, f);
  }

  /** The dual of a scaled constraint, when the model has a dual suffix holding one. */
  function ScaleDual(dual: Option<real>, f: real): (r: Result<Option<real>, ScalingError>)
    ensures dual.None? ==> r == Success(None)
    ensures dual.Some? && f == 0.0 ==> r == Failure(ZeroDivision)
    ensures dual.Some? && f != 0.0 ==> r.Success? && r.value.Some? && r.value.value * f == dual.value
  {
    if dual.None? then Success(None)
    else if f == 0.0 then Failure(ZeroDivision)
    else Success(Some(dual.value / f))
  }

  /**
   The dual of a scaled constraint as the objective's scaling also requires:
   multiplied by the objective's factor as well as divided by the
   constraint's, the inverse of what `propagate_solution` does.
   */
  function ScaleDualCorrected(dual: Option<real>, f: real, objective: real): (r: Result<Option<real>, ScalingError>)
    ensures dual.None? ==> r == Success(None)
    ensures dual.Some? && f == 0.0 ==> r == Failure(ZeroDivision)
    ensures dual.Some? && f != 0.0 ==> r.Success? && r.value.Some? && r.value.value * f == dual.value * objective
  {
    if dual.None? then Success(None)
    else if f == 0.0 then Failure(ZeroDivision)
    else
      DivCancel(dual.value * objective, f);
      Success(Some(dual.value * objective / f))
  }

  /** A constraint data object that the dual rescaling would divide by zero. */
  predicate DualBlocks(d: DataId, hasDual: bool, duals: map<DataId, Option<real>>, factor: map<DataId, real>)
    requires d in factor
  {
    hasDual && d in duals && duals[d].Some? && factor[d] == 0.0
  }

  datatype ScaledCons = ScaledCons(cons: map<DataId, ConState>, duals: map<DataId, Option<real>>)

  /**
   The constraint pass: each constraint data object is scaled once, in
   `order`; when the model has a `dual` suffix, each dual it holds is
   divided by the constraint's factor, and a zero factor under a present
   dual raises.
   */
  method ScaleConstraints(order: seq<DataId>, cons: map<DataId, ConState>, hasDual: bool,
                          duals: map<DataId, Option<real>>, factor: map<DataId, real>)
    returns (r: Result<ScaledCons, ScalingError>)
    requires forall d :: d in order ==> d in cons && d in factor && cons[d].Valid()
    ensures r.Failure? <==> exists i :: 0 <= i < |order| && DualBlocks(order[i], hasDual, duals, factor)
    ensures r.Failure? ==> r.error == ZeroDivision
    ensures r.Success? ==> r.value.cons.Keys == cons.Keys && r.value.duals.Keys == duals.Keys
    ensures r.Success? ==> forall d :: d in cons && d in order ==> r.value.cons[d] == ScaleCon(cons[d], factor[d])
    ensures r.Success? ==> forall d :: d in cons && d !in order ==> r.value.cons[d] == cons[d]
    ensures r.Success? ==> forall d :: d in duals && (d !in order || !hasDual) ==> r.value.duals[d] == duals[d]
    ensures r.Success? ==> forall d :: d in duals && d in order && hasDual ==>
      Success(r.value.duals[d]) == ScaleDual(duals[d], factor[d])
  {
    var alreadyScaled: set<DataId> := {};
    var scaled := cons;
    var scaledDuals := duals;
    var i := 0;
    while i < |order|
      invariant 0 <= i <= |order|
      invariant scaled.Keys == cons.Keys && scaledDuals.Keys == duals.Keys
      invariant alreadyScaled == set j | 0 <= j < i :: order[j]
      invariant forall j :: 0 <= j < i ==> !DualBlocks(order[j], hasDual, duals, factor)
      invariant forall d :: d in alreadyScaled ==> scaled[d] == ScaleCon(cons[d], factor[d])
      invariant forall d :: d in cons && d !in alreadyScaled ==> scaled[d] == cons[d]
      invariant forall d :: d in duals && (d !in alreadyScaled || !hasDual) ==> scaledDuals[d] == duals[d]
      invariant forall d :: d in duals && d in alreadyScaled && hasDual ==>
        Success(scaledDuals[d]) == ScaleDual(duals[d], factor[d])
    {
      var d := order[i];
      if d !in alreadyScaled {
        alreadyScaled := alreadyScaled + {d};
        var f := factor[d];
        if hasDual && d in duals {
          match ScaleDual(duals[d], f)
          case Failure(e) =>
            return Failure(e);
          case Success(v) =>
            scaledDuals := scaledDuals[d := v];
        }
        scaled := scaled[d := ScaleCon(cons[d], f)];
      }
      i := i + 1;
    }
    r := Success(ScaledCons(scaled, scaledDuals));
  }

  //
  // propagate_solution
  //

  /** A scaled variable's value mapped back: it must have a value, and the factor must be non-zero. */
  function UnscaleValue(x: Option<real>, f: real): (r: Result<real, ScalingError>)
    ensures x.None? ==> r == Failure(NoValue)
    ensures x.Some? && f == 0.0 ==> r == Failure(ZeroDivision)
    ensures x.Some? && f != 0.0 ==> r.Success? && r.value * f == x.value
  {
    if x.None? then Failure(NoValue)
    else if f == 0.0 then Failure(ZeroDivision)
    else Success(x.value / f)
  }

  /** Scaling a variable then mapping its value back gives the value it had. */
  lemma ValueRoundTrip(v: VarState, f: real)
    requires v.value.Some? && f != 0.0
    ensures var r := UnscaleValue(ScaleVar(v, f).value, f); r.Success? && r.value == v.value.value
  {
    DivCancel(v.value.value, f);
  }

  /**
   A dual or reduced cost of the scaled model mapped back: multiplied by the
   component's factor and divided by the objective's; a missing entry
   raises.
   */
  function UnscaleMultiplier(m: Option<real>, f: real, objective: real): (r: Result<real, ScalingError>)
    ensures m.None? ==> r == Failure(MissingEntry)
    ensures m.Some? && objective == 0.0 ==> r == Failure(ZeroDivision)
    ensures m.Some? && objective != 0.0 ==> r.Success? && r.value * objective == m.value * f
  {
    if m.None? then Failure(MissingEntry)
    else if objective == 0.0 then Failure(ZeroDivision)
    else Success(m.value * f / objective)
  }

  /**
   A dual scaled by the transformation and mapped straight back comes out
   divided by the objective's factor: the two directions agree only when
   the objective is unscaled.
   */
  lemma DualRoundTrip(d: real, f: real, objective: real)
    requires f != 0.0 && objective != 0.0
    ensures var back := UnscaleMultiplier(ScaleDual(Some(d), f).value, f, objective);
      && back.Success? && back.value == d / objective
      && (back.value == d <==> d == 0.0 || objective == 1.0)
  {
    DivCancel(d, f);
    var q := d / objective;
    DivCancel(d, objective);
    if q == d && d != 0.0 {
      calc {
        d * objective;
        q * objective;
        d;
      }
      assert d * (objective - 1.0) == 0.0;
    }
  }

  /** With the corrected forward rule, a dual scaled and mapped straight back is the original dual. */
  lemma DualRoundTripCorrected(d: real, f: real, objective: real)
    requires f != 0.0 && objective != 0.0
    ensures var back := UnscaleMultiplier(ScaleDualCorrected(Some(d), f, objective).value, f, objective);
      back.Success? && back.value == d
  {
    var s := d * objective / f;
    DivCancel(d * objective, f);
    assert s * f == d * objective;
    DivCancel(d, objective);
  }
}
