# Linear canonicalisation and model scaling, modelled in Dafny

This project models two pieces of the Pyomo optimisation modelling library.

**The linear canonicaliser** (`pyomo/repn/linear.py`) walks an algebraic expression and classifies every subexpression as CONSTANT, LINEAR or GENERAL. For each one it builds a `LinearRepn`. That record holds:
- a pending multiplier;
- a constant;
- an insertion-ordered map from variable identity to coefficient;
- an optional nonlinear residual.

The model covers:
- the record and its sum fold (`append`, `_merge_dict`);
- the classification (`walker_exitNode`);
- the exit rules for negation, product, division, power, unary functions, `Expr_if` and named subexpressions;
- the before-child shortcuts for variables, monomials, flat linear sums and cached named subexpressions, including the variable-order registry they fill;
- `finalizeResult`.

Numbers are `Num = R(real) | NaN`, with NaN-absorbing arithmetic:
- Python's `not x` is `x == R(0)`.
- `x != x` is `x == NaN`.
- Division by an exact zero is a `ZeroDivision` failure.

Each rule is paired with a value semantics. A result denotes `multiplier * (constant + sum(coef*x) + residual)` under an assignment of reals to variables. Division, powers, conditionals and unary functions inside a residual are left to an arbitrary `atom` evaluator. The lemmas prove that:
- every rule keeps the record's invariant;
- every rule denotes what its operator denotes. The exceptions are where the source deliberately short-circuits: `0*NaN` is 0. For division, powers, conditionals and unary functions, "what the operator denotes" is any meaning of it that agrees with `/` or with the evaluation oracle where those are defined, and that `atom` gives the residual's nodes for it. A constant to a constant power is evaluated on the operands' values, as the unary rule does; the source as written passes the tagged pairs instead (see Findings).

**The scaling transformation** (`pyomo/core/plugins/transform/scaling.py`) is modelled in three parts.
- Suffix lookup: `_suffix_finder` does three passes over the leaf-to-root chain of suffix maps, after a check of its root argument. `_get_float_scaling_factor` adds the default of 1.0 and the float conversion.
- Forward arithmetic: variable bounds and values, constraint bounds, and duals are rescaled, once per data object.
- Inverse arithmetic: `propagate_solution` maps values and multipliers back.

Modules follow the source's structure:

| file | module | models |
|---|---|---|
| `wrappers.dfy` | `Wrappers` | `Option`, `Result` |
| `numbers.dfy` | `Numbers` | `Num` and its NaN-absorbing arithmetic |
| `linear_maps.dfy` | `LinearMaps` | insertion-ordered coefficient maps, `_merge_dict`, zero pruning, their sums |
| `exprs.dfy` | `Exprs` | the residual expression tree and its evaluation |
| `repn.dfy` | `LinearRepn` | `LinearRepn`, classification, `append`, `to_expression` |
| `exit_rules.dfy` | `ExitRules` | the exit-node rule table |
| `before_child.dfy` | `BeforeChild` | the before-child shortcuts and the variable registry |
| `finalize.dfy` | `Finalize` | `finalizeResult` as written, and corrected |
| `shared_results.dfy` | `SharedResults` | results as heap objects; `duplicate` and the subexpression cache |
| `suffix_finder.dfy` | `SuffixFinder` | `_suffix_finder`, `_get_float_scaling_factor` |
| `scaling.dfy` | `Scaling` | the factor map, bound/value/dual scaling, `propagate_solution` arithmetic |

In `_before_linear`, `if linear:` (pyomo/repn/linear.py:545) is true for a map whose entries cancelled to 0, so such a result stays LINEAR. The model keeps this behaviour.

## Model

| member | source | states |
|---|---|---|
| `LinearMaps.MergeDict` | pyomo/repn/linear.py:48-60 | The keys are the union of both maps and the result's key order is self's followed by the keys only in other, in other's order. A shared key gets `self + mult*other`, a key only in other gets `mult*other`, and a key only in self is unchanged. |
| `LinearMaps.MergeDictSum` | pyomo/repn/linear.py:48-60 | For a real multiplier, the merged map's linear sum is `self + mult*other`. |
| `LinearMaps.MergeKeysOrder` | pyomo/repn/linear.py:55-60 | The loop over `other_dict.items()` leaves the accumulator's keys in place and appends each key it lacks, in the order visited. |
| `LinearMaps.NewKeysMembers` | pyomo/repn/linear.py:55-60 | The appended keys are exactly the visited keys the accumulator lacked. |
| `LinearMaps.LinMap.RemoveZeros` | pyomo/repn/linear.py:722-725 | Exactly the keys with a non-zero coefficient survive. NaN entries stay and values are unchanged. Key order is the original order minus the zeros. |
| `LinearMaps.RemoveZerosSum` | pyomo/repn/linear.py:722-725 | Dropping zero entries does not change the linear sum. |
| `LinearMaps.ScaledSum` | pyomo/repn/linear.py:729-734 | Scaling every coefficient by a real multiplier scales the linear sum by it. |
| `Exprs.TermsOfValue` | pyomo/repn/linear.py:98-108 | The monomials rebuilt from the entries with truthy coefficients denote the map's linear sum. |
| `LinearRepn.NewRepn` | pyomo/repn/linear.py:66-70 | A fresh result is valid, classifies as CONSTANT 0 and denotes 0. |
| `LinearRepn.Classify` | pyomo/repn/linear.py:81-87 | GENERAL iff a residual is present. Otherwise LINEAR iff the map is non-empty, otherwise CONSTANT `multiplier*constant`. The invariant is kept. |
| `LinearRepn.ClassifyValue` | pyomo/repn/linear.py:81-87 | Classification never changes the denoted value. |
| `LinearRepn.Append` | pyomo/repn/linear.py:117-149 | A CONSTANT child only adds to the constant. Any other child adds `mult*constant` and merges its map scaled by `mult`, appending the keys new to self in the child's order. It attaches its residual scaled by `mult`, and self's residual is unchanged when the child has none. The multiplier and the invariant are kept. |
| `LinearRepn.AppendValue` | pyomo/repn/linear.py:117-149 | With multiplier 1, appending a child adds exactly the child's value. |
| `LinearRepn.AppendRepnValue` | pyomo/repn/linear.py:133-149 | Appending a non-constant child's record adds that record's value. |
| `LinearRepn.AppendAllValue` | pyomo/repn/linear.py:117-149 | Folding all children of a sum into an accumulator adds the sum of their values. |
| `LinearRepn.SumExitValue` | pyomo/repn/linear.py:700-714 | An n-ary sum's classified result denotes the sum of its children. |
| `LinearRepn.AffineExprValue` | pyomo/repn/linear.py:98-108 | The rebuilt affine part denotes `constant + sum(coef*x)`. |
| `LinearRepn.ToExprValue` | pyomo/repn/linear.py:97-115 | `to_expression` denotes the same value as the result it rebuilds. |
| `LinearRepn.TaggedToExprValue` | pyomo/repn/linear.py:152-169 | Rebuilding any classified result, CONSTANT included, preserves its value. |
| `ExitRules.NegationExit` | pyomo/repn/linear.py:178-191 | A CONSTANT is negated. Otherwise only the multiplier is multiplied by -1, with the tag and contents unchanged. |
| `ExitRules.NegationValue` | pyomo/repn/linear.py:178-184 | The negation rule denotes `-1 *` the operand's value. |
| `ExitRules.ProductExit` | pyomo/repn/linear.py:198-240 | A constant factor that is 0 or NaN becomes the result, whatever the other operand. Another constant factor only scales the other operand's multiplier. Two non-constant operands give a fresh GENERAL product of their rebuilt expressions. The invariant is kept. |
| `ExitRules.ProductValue` | pyomo/repn/linear.py:198-227 | When both values are real, the product rule denotes their product. A NaN constant factor yields NaN. Two non-constant operands always denote the product. |
| `ExitRules.DivisionExit` | pyomo/repn/linear.py:247-280 | The rule fails iff the divisor is the constant 0. A NaN constant divisor gives CONSTANT NaN. Another constant divisor only divides the multiplier. A non-constant divisor gives GENERAL with an empty map. |
| `ExitRules.DivisionValue` | pyomo/repn/linear.py:247-259 | By a constant, the rule succeeds exactly when `/` does and then denotes the quotient. |
| `ExitRules.DivisionAnyValue` | pyomo/repn/linear.py:247-280 | For any divisor, constant or not, a successful division rule denotes `div` of the operands' values, for any `div` that agrees with `/` where `/` is defined and that `atom` gives division nodes. |
| `ExitRules.PowExit` | pyomo/repn/linear.py:287-316 | Constant to a constant power is CONSTANT of the oracle's value, and it fails exactly when the oracle fails, with the oracle's error. Exponent 1 on a non-constant base returns the base unchanged. Everything else is GENERAL over the rebuilt operands. |
| `ExitRules.UnaryExit` | pyomo/repn/linear.py:323-340 | A constant argument is CONSTANT of the oracle's value, and it fails exactly when the oracle fails, with the oracle's error. A non-constant argument gives GENERAL over its rebuilt expression. |
| `ExitRules.PowValue` | pyomo/repn/linear.py:287-316 | Suppose `pow` is a meaning of the operator that the oracle computes faithfully, that has 1 as right identity, and that the residual's power nodes carry. Then the power rule's result denotes `pow` of the operands' values. |
| `ExitRules.PowConstantsAsWritten` | pyomo/repn/linear.py:287-288 | `x**2` with `x` fixed at 3: with the tagged pairs handed to the operation, the rule raises TypeError. On the values, with an oracle giving 9, it gives CONSTANT 9. |
| `ExitRules.UnaryValue` | pyomo/repn/linear.py:323-340 | Suppose `f` is a meaning of the function that the oracle computes faithfully and that the residual's nodes carry. Then the unary rule's result denotes `f` of the operand's value. |
| `ExitRules.ExprIfExit` | pyomo/repn/linear.py:382-415 | A constant 0 test selects the else branch and any other real test the then branch. A NaN or non-constant test gives a GENERAL conditional. The invariant is kept. |
| `ExitRules.ExprIfValue` | pyomo/repn/linear.py:382-415 | The rule's result denotes `ite` of the three operands' values, for any `ite` that picks the else value on 0 and the then value on any other real and that `atom` gives conditional nodes. |
| `ExitRules.NamedExit` | pyomo/repn/linear.py:347-364 | The operand is recorded under the node and returned. Every other cache entry is unchanged and the cache stays valid. |
| `BeforeChild.Registry.Register` | pyomo/repn/linear.py:428-429 | A new variable gets position `len(var_order)`. Existing positions are untouched and the order stays a bijection onto `0..n-1`. |
| `BeforeChild.BeforeVar` | pyomo/repn/linear.py:422-431 | An unseen fixed variable is its value as CONSTANT and is not registered. Any other variable is registered if new and becomes LINEAR with coefficient 1. |
| `BeforeChild.BeforeVarSound` | pyomo/repn/linear.py:422-431 | The registry stays valid and only grows. A LINEAR answer's variable is registered. The answer denotes the variable. |
| `BeforeChild.BeforeMonomial` | pyomo/repn/linear.py:457-493 | A coefficient that fails to evaluate makes the walker descend. A 0 or NaN coefficient is the answer. An unseen fixed variable folds to `coef*value`. Otherwise the variable is registered if new and the result is LINEAR `{id: coef}`. |
| `BeforeChild.BeforeMonomialSound` | pyomo/repn/linear.py:457-493 | The registry stays valid and only grows. Any answer denotes `coef*x`. |
| `BeforeChild.LinearStep` | pyomo/repn/linear.py:507-545 | An argument stops the loop exactly when it cannot be evaluated, and the registry is then unchanged. A falsy coefficient leaves everything as it was. A NaN coefficient, a plain term and an unregistered fixed variable's `coef*value` go to the constant only. An unregistered free variable is registered at the next position and entered with its coefficient. A registered variable's coefficient is added to its entry, or entered if absent. |
| `BeforeChild.LinearStepValue` | pyomo/repn/linear.py:507-545 | The step adds the argument's value to the accumulated `constant + sum(coef*x)`. |
| `BeforeChild.FoldLinear` | pyomo/repn/linear.py:503-545 | The loop keeps the accumulators valid. Whether it completes or aborts, the registry only grows. |
| `BeforeChild.FoldLinearAborts` | pyomo/repn/linear.py:503-545 | The loop gives up exactly when some argument cannot be evaluated. |
| `BeforeChild.FoldLinearValue` | pyomo/repn/linear.py:496-545 | When every argument evaluates, the loop completes and accumulates the sum of the arguments' values. |
| `BeforeChild.FoldLinearRegistered` | pyomo/repn/linear.py:503-529 | The loop registers exactly the free variables of the truthy, non-NaN monomials before the first argument it cannot evaluate. |
| `BeforeChild.FoldLinearEntered` | pyomo/repn/linear.py:503-545 | A completed loop gives an entry to exactly the variables of the truthy, non-NaN monomials whose variable is free or was already registered. |
| `BeforeChild.Answer` | pyomo/repn/linear.py:545-549 | `if linear:` is true even for a map whose entries cancelled to 0, so such a result stays LINEAR, with the accumulated constant and multiplier 1. An empty map gives CONSTANT of the accumulated constant. |
| `BeforeChild.AnswerValue` | pyomo/repn/linear.py:545-549 | The answer denotes the accumulated `constant + sum(coef*x)`. |
| `BeforeChild.BeforeLinear` | pyomo/repn/linear.py:496-549 | The walker descends exactly when some argument fails to evaluate, keeping the registrations made. Registered are exactly the free variables of the truthy, non-NaN monomials before that argument. Otherwise the answer is never GENERAL. It is LINEAR exactly when some truthy, non-NaN monomial is over a free or already-registered variable. The LINEAR map's keys are exactly those variables, with multiplier 1. For `0*x + 5` it is CONSTANT and nothing is registered. |
| `BeforeChild.BeforeLinearSound` | pyomo/repn/linear.py:496-549 | The shortcut's answer denotes the sum of the flat expression's arguments. |
| `BeforeChild.BeforeLinearZeroTerm` | pyomo/repn/linear.py:503-549 | For `0*x + 5` over a free `x`, the falsy coefficient is skipped: `x` is not registered and the answer is CONSTANT 5. |
| `BeforeChild.BeforeNamed` | pyomo/repn/linear.py:552-561 | A cached node is answered from the cache, and only a cached one. |
| `BeforeChild.NamedRoundTrip` | pyomo/repn/linear.py:552-561 | What a named node's exit records is what its next visit answers, and no other node's answer changes. |
| `Finalize.FinalLinear` | pyomo/repn/linear.py:722-734 | Exactly the non-zero entries survive, in their order, each multiplied by the multiplier. None of the survivors is zero. |
| `Finalize.FinalLinearSum` | pyomo/repn/linear.py:722-734 | The finalised map's linear sum is the multiplier times the original's. |
| `Finalize.FinalResidualValue` | pyomo/repn/linear.py:735-736 | The finalised residual denotes the residual times the multiplier. |
| `Finalize.FinalizeResult` | pyomo/repn/linear.py:718-742 | A CONSTANT becomes a fresh result holding it. Otherwise zeros are dropped, NaN entries kept, and the survivors, in their original order, multiplied by the multiplier. The residual is multiplied by the multiplier when that is not 1. The constant and the multiplier are left as they were. |
| `Finalize.FinalizeUnscaledValue` | pyomo/repn/linear.py:718-725 | With nothing to push down (CONSTANT, or multiplier 1), finalisation preserves the value. |
| `Finalize.FinalizeScaledCounterexample` | pyomo/repn/linear.py:726-737 | For `2*(x+1)` at x = 1 (value 4), the finalised result denotes 6, or 3 without its left-over multiplier. |
| `Finalize.FinalizeCorrected` | pyomo/repn/linear.py:726-737 | The corrected rule also scales the constant and returns multiplier 1, with no zero entries. |
| `Finalize.FinalizeCorrectedValue` | pyomo/repn/linear.py:718-742 | The corrected finalisation always preserves the denoted value. |
| `SharedResults.Duplicate` | pyomo/repn/linear.py:89-95 | The copy is a fresh object with the same contents, and every existing object is untouched. |
| `SharedResults.NamedExitShared` | pyomo/repn/linear.py:347-357 | The exit records the operand's slot. It hands the parent an equal-valued slot that, for LINEAR/GENERAL, is a fresh object. |
| `SharedResults.BeforeNamedShared` | pyomo/repn/linear.py:552-561 | A hit hands out an equal-valued copy, a fresh object for LINEAR/GENERAL. A miss descends. |
| `SharedResults.HandedCopyIsolated` | pyomo/repn/linear.py:552-561 | Any in-place update of the handed-out object leaves every cache entry's value unchanged. |
| `SharedResults.SharingWouldCorrupt` | pyomo/repn/linear.py:182-184 | If the cached object itself were handed out, negating it in place would change the cached entry. |
| `SuffixFinder.CollectUpTo` | pyomo/core/plugins/transform/scaling.py:147-155 | With no stop the walk collects every suffix, leaf to root. With a stop on the chain it collects those below the stop. With a stop off the chain it fails. |
| `SuffixFinder.FirstWithReversed` | pyomo/core/plugins/transform/scaling.py:157-165 | Searching the reversed list finds the suffix nearest the root that holds the key. |
| `SuffixFinder.Lookup` | pyomo/core/plugins/transform/scaling.py:156-170 | Pass 1 gives the data object's value from the suffix nearest the root. Pass 2 does the same for the container, only if it differs from the data object. Pass 3 gives the `None` default nearest the leaf. The result is None iff no pass matches. |
| `SuffixFinder.FindSuffix` | pyomo/core/plugins/transform/scaling.py:136-170 | A root that is not a block, or is indexed, raises. Otherwise the search covers the blocks below the root's parent, or the whole chain with no root. It raises when that parent is not on the chain. |
| `SuffixFinder.FindSuffixOffTop` | pyomo/core/plugins/transform/scaling.py:147-155 | The finder raises for a root whose parent is not above the data object. |
| `SuffixFinder.FindSuffixSiblingTruncates` | pyomo/core/plugins/transform/scaling.py:147-155 | For a sibling root whose parent is above the data object, the finder stops below that parent and misses its suffix (None). The documented search finds the value (3.0). |
| `SuffixFinder.FindSuffixCorrected` | pyomo/core/plugins/transform/scaling.py:119-124 | The documented finder fails exactly on a bad root. When the root is not among the data object's enclosing blocks, it searches up to the top model. Otherwise it searches up to and including the root. |
| `SuffixFinder.FindSuffixCorrectedAgrees` | pyomo/core/plugins/transform/scaling.py:136-155 | For a root that does enclose the data object, on a chain of distinct blocks with a consistent parent, the finder as written gives the documented answer. |
| `SuffixFinder.FloatFactor` | pyomo/core/plugins/transform/scaling.py:175-188 | No value, or a `None` value, gives 1.0. A convertible value is returned. A string `float` rejects raises ValueError, and another type raises TypeError. |
| `SuffixFinder.ScalingFactor` | pyomo/core/plugins/transform/scaling.py:172-188 | The factor is the float conversion of the rootless lookup. With no suffix on the chain it is 1.0. |
| `Scaling.FactorMapFrom` | pyomo/core/plugins/transform/scaling.py:197-202 | The filled map covers exactly the accumulated and visited components. It succeeds iff every component's factor converts. |
| `Scaling.FactorMap` | pyomo/core/plugins/transform/scaling.py:192-207 | A scaling method other than `user` raises. Otherwise the map covers exactly the components and succeeds iff every factor converts. |
| `Scaling.FactorMapFromValue` | pyomo/core/plugins/transform/scaling.py:197-202 | A component's entry is its own factor unless a later component has the same identity. |
| `Scaling.FactorMapValue` | pyomo/core/plugins/transform/scaling.py:192-202 | In the factor map, a component's entry is its own factor when no later component shares its identity. |
| `Scaling.ScaleVar` | pyomo/core/plugins/transform/scaling.py:248-261 | Bounds and value are multiplied by the factor, and a negative factor swaps the bounds. |
| `Scaling.ScaleVarOrdered` | pyomo/core/plugins/transform/scaling.py:248-255 | `lb <= ub` before implies `lb <= ub` after, for every factor. |
| `Scaling.ScaleVarWithin` | pyomo/core/plugins/transform/scaling.py:248-261 | For a non-zero factor, a value is within the bounds iff the scaled value is within the scaled bounds. |
| `Scaling.ScaleVariables` | pyomo/core/plugins/transform/scaling.py:231-261 | The pass fails with `ZeroDivision` exactly when some listed variable has factor 0, since building `v / factor` (line 246) raises. Otherwise each listed variable is scaled exactly once, by its own factor, however often it is listed, and unlisted variables are unchanged. |
| `Scaling.ScaleCon` | pyomo/core/plugins/transform/scaling.py:298-317 | Bounds are multiplied by the factor and swapped when it is negative. An equality constraint keeps one right-hand side. |
| `Scaling.ScaleConSatisfied` | pyomo/core/plugins/transform/scaling.py:291-317 | For a non-zero factor, a body value satisfies the constraint iff `factor*body` satisfies the scaled constraint. |
| `Scaling.ScaleDual` | pyomo/core/plugins/transform/scaling.py:309-312 | A present dual is divided by the factor and fails on a zero factor. An absent one stays absent. |
| `Scaling.ScaleDualCorrected` | pyomo/core/plugins/transform/scaling.py:309-312 | The forward dual rule as the objective's scaling requires: a present dual is multiplied by the objective's factor and divided by the constraint's, failing on a zero constraint factor. An absent one stays absent. |
| `Scaling.ScaleConstraints` | pyomo/core/plugins/transform/scaling.py:275-317 | Each listed constraint is scaled exactly once. Its dual is divided when the model has a dual suffix. The pass fails exactly when a listed constraint with a dual has factor 0. Everything unlisted is unchanged. |
| `Scaling.UnscaleValue` | pyomo/core/plugins/transform/scaling.py:402-406 | A missing value or a zero factor raises. Otherwise the result times the factor is the scaled value. |
| `Scaling.ValueRoundTrip` | pyomo/core/plugins/transform/scaling.py:402-406 | For a non-zero factor, mapping a scaled value back gives the original value. |
| `Scaling.UnscaleMultiplier` | pyomo/core/plugins/transform/scaling.py:424-428 | A missing entry or a zero objective factor raises. Otherwise the result times the objective factor is `multiplier*factor`. |
| `Scaling.DualRoundTrip` | pyomo/core/plugins/transform/scaling.py:424-428 | A dual scaled forward and then mapped back comes out divided by the objective's factor. It returns unchanged iff it is 0 or the objective is unscaled. |
| `Scaling.DualRoundTripCorrected` | pyomo/core/plugins/transform/scaling.py:424-428 | With the corrected forward rule, mapping a dual back recovers it exactly, for non-zero factors. |

## Left out

- The generic expression walk (`StreamBasedExpressionVisitor`) is not modelled, because it relies on class introspection. The same goes for the run-time registration of before-child and exit dispatchers (pyomo/repn/linear.py:599-677). The rules are modelled as functions over the operands' classified results.
- `_before_expr_if` (pyomo/repn/linear.py:564-580) is left out: its nested walk refers to an undefined `self`.
- `_before_external` (pyomo/repn/linear.py:583-592) is left out: it calls an undefined `test`, so it always falls through to GENERAL.
- `_before_npv`, `_before_native` and `_before_general_expression` are left out. They are direct evaluation or a plain descend.
- `ExitRules.PowExit`, `ExitRules.UnaryExit`: evaluating a constant power or a unary function on a constant is a parameter (`power`, `apply`), because it is done by `apply_node_operation`, which is not part of this model. The parameter is applied to the operands' values. For powers the source passes the tagged `(type, value)` pairs to that call; `ExitRules.PowOnPairs` stands for that call as written (see Findings).
- `to_expression` builds library expression objects. Here it builds the `Exprs.Expr` tree. Variables are referenced by identity, not by looking them up in `var_map`.
- `var_map` (identity to variable object) is not modelled separately. Its key set is that of the registry `var_order`.
- IEEE details are left out: infinities, signed zero, rounding, complex results, and Python's int/float distinction.
- A fixed variable whose value is `None` is not modelled. A variable's value is always a `Num`.
- `BeforeChild.LinArg`: an argument whose evaluation raises is an absent number. Which library objects raise is not modelled.
- Scaling's model-graph work is left out: `clone`, `rename_components`, `replace_expressions`, component traversal and `find_component`. The transformation is modelled on lists of data identities and maps of their states.
- Rescaling of objective and constraint bodies (pyomo/core/plugins/transform/scaling.py:246, 291-296, 319-325) is not modelled, because it substitutes scaled variables into expressions. Only the zero-division raise of line 246 is modelled, by `Scaling.ScaleVariables`. `Scaling.ScaleConSatisfied` takes the scaled body's value to be `factor*body`.
- These parts of `propagate_solution` are not modelled:
  - the attribute checks (pyomo/core/plugins/transform/scaling.py:354-365);
  - the single-active-objective lookup (379-394);
  - the iteration over scaled components and the `find_component` name lookup (396-401, 415-422).
  Only the per-entry arithmetic is modelled. The reduced-cost transfer (407-412) uses the same formula as the dual transfer, which `Scaling.UnscaleMultiplier` models.
- `Scaling.ScaleVariables` and `Scaling.ScaleConstraints`: when the source raises part-way through a pass, the data objects it visited earlier have already been rescaled in place (pyomo/core/plugins/transform/scaling.py:246, 309-312). The model returns only the error and not that partly scaled model, because the raise ends the transformation and the model tracks no state after it.
- Reference components are skipped (pyomo/core/plugins/transform/scaling.py:235-237, 279-281). `Scaling.ScaleVariables` and `Scaling.ScaleConstraints` take the list of data objects the non-reference components yield.
- The `NotImplementedError` for a component that is neither a constraint nor an objective (pyomo/core/plugins/transform/scaling.py:326-329) cannot arise in the model.
- `SuffixFinder.Root`: a block ctype, or a subclass of one, is abstracted to a boolean.

## Findings

| source | as written | input that shows it | evidently intended | confidence | as-written member | corrected member |
|---|---|---|---|---|---|---|
| pyomo/repn/linear.py:726-737 | When the multiplier is not 1, finalisation multiplies the linear coefficients and the residual by it. It neither scales the constant nor resets the multiplier to 1. | `2*(x + 1)`, whose product rule leaves multiplier 2 on `x + 1`, at x = 1 | Push the multiplier into the constant as well and reset it to 1, so the finalised result denotes the expression (value 4). As written it denotes 6, or 3 if the left-over multiplier is ignored. | not executed | `Finalize.FinalizeScaledCounterexample` | `Finalize.FinalizeCorrectedValue` |
| pyomo/core/plugins/transform/scaling.py:147-155 | The walk stops only on reaching `root`'s parent. If that parent is not above the data object, the walk passes the top block and calls `component` on `None`, which raises AttributeError. If the parent is above the data object but `root` is not (a sibling), the search silently stops below that parent. | the data object's enclosing blocks are 1, 2, 3, with a suffix on 2 giving it 3.0; `root` is block 4, a child of 2. The finder returns None. With a root whose parent 5 is off the chain, it raises | Search up to the top model whenever the data object is not in `root`'s subtree, as the docstring says (pyomo/core/plugins/transform/scaling.py:119-124) | not executed | `SuffixFinder.FindSuffixSiblingTruncates` | `SuffixFinder.FindSuffixCorrected` |
| pyomo/repn/linear.py:287-288 | `_handle_pow_constant_constant` passes `args`, the `(type, value)` pairs, to `apply_node_operation` (not part of this model), so `**` is applied to two tuples and raises TypeError. The unary rule at 323-324 unwraps the value first. | `x**2` with `x` fixed at 3 and not yet registered: both operands are CONSTANT | Apply the operator to the values, giving CONSTANT 9 | not executed | `ExitRules.PowConstantsAsWritten` | `ExitRules.PowValue` |
| pyomo/core/plugins/transform/scaling.py:309-312 | The forward rule divides a constraint's dual by the constraint's factor only, although the objective is scaled too (319). `propagate_solution` (424-428) divides by the objective's factor, so a dual scaled forward and mapped back is off by that factor. | a dual of 2.0, constraint factor 1, objective factor 2: scaled forward it is 2.0, mapped back it is 1.0 | Multiply by the objective's factor as well, so that the two directions are inverse | not executed | `Scaling.DualRoundTrip` | `Scaling.DualRoundTripCorrected` |
