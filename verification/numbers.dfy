/**
 Numbers as the linear canonicaliser sees them: a real value or NaN.

 Python's `not x` is `IsZero()` and `x != x` is `IsNaN()`.  Every arithmetic
 operation propagates NaN; division by an exact zero raises, as Python's float
 and int division do, whatever the numerator.
 */
module Numbers {
  import opened Wrappers

  /**
   The errors arithmetic on the model's numbers can raise; `OperandType` is
   Python's TypeError for an operator applied to operands it has no meaning for.
   */
  datatype ArithError = ZeroDivision | EvaluationError | OperandType

  datatype Num = R(r: real) | NaN {

    /** Python's `not x`: only an exact zero is falsy; NaN is truthy. */
    predicate IsZero() { this == R(0.0) }

    /** Python's `x != x`. */
    predicate IsNaN() { NaN? }

    /** Python's `x == 1`. */
    predicate IsOne() { this == R(1.0) }

    function Plus(b: Num): Num {
      if R? && b.R? then R(r + b.r) else NaN
    }

    function Times(b: Num): Num {
      if R? && b.R? then R(r * b.r) else NaN
    }

    /** Python's `/`: a zero divisor raises, otherwise NaN propagates. */
    function DividedBy(b: Num): (q: Result<Num, ArithError>)
      ensures q.Failure? <==> b.IsZero()
      ensures q.Success? && (IsNaN() || b.IsNaN()) ==> q.value.IsNaN()
    {
      if b.IsZero() then Failure(ZeroDivision)
      else if R? && b.R? then Success(R(r / b.r))
      else Success(NaN)
    }
  }

  const Zero: Num := R(0.0)
  const One: Num := R(1.0)

  // Algebra of NaN-absorbing arithmetic.  Every law below keeps all of its
  // variables on both sides, so NaN on one side means NaN on the other.

  lemma PlusComm(a: Num, b: Num)
    ensures a.Plus(b) == b.Plus(a)
  {}

  lemma PlusAssoc(a: Num, b: Num, c: Num)
    ensures a.Plus(b).Plus(c) == a.Plus(b.Plus(c))
  {}

  lemma TimesComm(a: Num, b: Num)
    ensures a.Times(b) == b.Times(a)
  {}

  lemma TimesAssoc(a: Num, b: Num, c: Num)
    ensures a.Times(b).Times(c) == a.Times(b.Times(c))
  {
    if a.R? && b.R? && c.R? {
      assert (a.r * b.r) * c.r == a.r * (b.r * c.r);
    }
  }

  lemma Distrib(a: Num, b: Num, c: Num)
    ensures a.Times(b.Plus(c)) == a.Times(b).Plus(a.Times(c))
  {
    if a.R? && b.R? && c.R? {
      assert a.r * (b.r + c.r) == a.r * b.r + a.r * c.r;
    }
  }

  lemma DistribRight(a: Num, b: Num, c: Num)
    ensures a.Plus(b).Times(c) == a.Times(c).Plus(b.Times(c))
  {
    if a.R? && b.R? && c.R? {
      assert (a.r + b.r) * c.r == a.r * c.r + b.r * c.r;
    }
  }

  lemma PlusZero(a: Num)
    ensures a.Plus(Zero) == a && Zero.Plus(a) == a
  {}

  lemma TimesOne(a: Num)
    ensures a.Times(One) == a && One.Times(a) == a
  {}

  lemma ZeroTimesReal(x: real)
    ensures Zero.Times(R(x)) == Zero && R(x).Times(Zero) == Zero
  {}

  /** (a + b) + (c + d) == (a + c) + (b + d) */
  lemma PlusSwapMiddle(a: Num, b: Num, c: Num, d: Num)
    ensures a.Plus(b).Plus(c.Plus(d)) == a.Plus(c).Plus(b.Plus(d))
  {}

  /** Division by a non-zero real commutes with multiplication. */
  lemma TimesQuotient(m: Num, c: Num, x: Num)
    requires c.R? && c.r != 0.0
    ensures m.DividedBy(c).Success? && x.Times(m).DividedBy(c).Success?
    ensures m.DividedBy(c).value.Times(x) == x.Times(m).DividedBy(c).value
  {
    if m.R? && x.R? {
      assert (m.r / c.r) * x.r == (x.r * m.r) / c.r;
    }
  }
}
