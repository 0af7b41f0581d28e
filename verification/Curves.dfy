/**
 Bonding curves (src/util/equation.h, src/util/equation.cc): expressions over one
 variable, evaluated with 256-bit arithmetic that throws instead of wrapping.
 */
module Curves {
  import opened Wrappers
  import opened Buffers

  datatype Op = Add | Sub | Mul | Div | Mod | Exp

  datatype Eq =
    | Binary(op: Op, left: Eq, right: Eq)
    | Constant(value: nat)
    | Variable

  /** Every constant of the expression is a 256-bit word. */
  predicate Wordy(e: Eq) {
    match e
    case Binary(_, l, r) => Wordy(l) && Wordy(r)
    case Constant(c) => c < LIMIT_256
    case Variable => true
  }

  /** The result of a checked 256-bit operation. */
  function Fit(n: int): (r: Option<nat>)
    ensures r.Some? <==> 0 <= n < LIMIT_256
    ensures r.Some? ==> r.value == n
  {
    if 0 <= n < LIMIT_256 then Some(n) else None
  }

  function Power(l: nat, r: nat): nat {
    if r == 0 then 1 else Power(l, r - 1) * l
  }

  /** One operation on the values of the two sides. */
  function Operate(op: Op, l: nat, r: nat): Option<nat> {
    match op
    case Add => Fit(l + r)
    case Sub => Fit(l - r)
    case Mul => Fit(l * r)
    case Div => if r == 0 then None else Fit(l / r)
    case Mod => if r == 0 then None else Fit(l % r)
    case Exp => Fit(Power(l, r))
  }

  /** The value of the expression at `x`; `None` when some operation throws. */
  function Apply(e: Eq, x: nat): (y: Option<nat>)
    ensures y.Some? && Wordy(e) && x < LIMIT_256 ==> y.value < LIMIT_256
  {
    match e
    case Constant(c) => Some(c)
    case Variable => Some(x)
    case Binary(op, l, r) =>
      var (a, b) := (Apply(l, x), Apply(r, x));
      if a.None? || b.None? then None else Operate(op, a.value, b.value)
  }

  // ---------------------------------------------------------------- pow

  lemma {:induction false} PowerPositive(l: nat, r: nat)
    requires l >= 1
    ensures Power(l, r) >= 1
  {
    if r > 0 {
      PowerPositive(l, r - 1);
      TimesUpTo(1, Power(l, r - 1), l);
    }
  }

  lemma {:induction false} PowerGrows(l: nat, i: nat, r: nat)
    requires l >= 1 && i <= r
    ensures Power(l, i) <= Power(l, r)
  {
    if i < r {
      PowerGrows(l, i, r - 1);
      TimesUpTo(1, l, Power(l, r - 1));
    }
  }

  lemma {:induction false} PowerOfZero(r: nat)
    requires r >= 1
    ensures Power(0, r) == 0
  {
  }

  lemma {:induction false} PowerDoubles(l: nat, i: nat)
    requires l >= 2
    ensures Power(l, i) >= Power(2, i)
  {
    if i > 0 {
      PowerDoubles(l, i - 1);
      PowerPositive(2, i - 1);
      TimesUpTo(Power(2, i - 1), Power(l, i - 1), l);
      TimesUpTo(2, l, Power(2, i - 1));
    }
  }

  lemma {:induction false} PowerAdds(l: nat, i: nat, j: nat)
    ensures Power(l, i + j) == Power(l, i) * Power(l, j)
  {
    if j > 0 {
      PowerAdds(l, i, j - 1);
      TimesAssociates(Power(l, i), Power(l, j - 1), l);
    }
  }

  lemma TwoTo4()
    ensures Power(2, 4) == 16
  {
  }

  lemma TwoTo256()
    ensures Power(2, 256) == LIMIT_256
  {
    hide Power;
    TwoTo4();
    PowerAdds(2, 4, 4);
    PowerAdds(2, 8, 8);
    PowerAdds(2, 16, 16);
    PowerAdds(2, 32, 32);
    PowerAdds(2, 64, 64);
    PowerAdds(2, 128, 128);
  }

  /**
   The loop of `pow`: l^r exactly when that fits 256 bits, an overflow otherwise;
   `rounds` counts the multiplications.
   */
  method Pow(l: nat, r: nat) returns (p: Option<nat>, rounds: nat)
    requires l < LIMIT_256 && r < LIMIT_256
    ensures p == Fit(Power(l, r))
    ensures rounds <= r && (l >= 2 ==> rounds <= 256)
  {
    hide Power;
    var v := 1;
    var i := 0;
    PowerBase(l);
    while i < r
      invariant i <= r
      invariant v == Power(l, i) < LIMIT_256
      invariant l >= 2 ==> i < 256
    {
      PowerStep(l, i);
      if v * l >= LIMIT_256 {
        OverflowStays(l, i + 1, r);
        return None, i + 1;
      }
      v := v * l;
      i := i + 1;
      if l >= 2 {
        FewSteps(l, i);
      }
    }
    return Some(v), i;
  }

  lemma PowerBase(l: nat)
    ensures Power(l, 0) == 1
  {
  }

  lemma PowerStep(l: nat, i: nat)
    ensures Power(l, i + 1) == Power(l, i) * l
  {
  }

  lemma OverflowStays(l: nat, i: nat, r: nat)
    requires i <= r && Power(l, i) >= LIMIT_256
    ensures Power(l, r) >= LIMIT_256
  {
    if l == 0 {
      PowerOfZero(i);
    } else {
      PowerGrows(l, i, r);
    }
  }

  lemma FewSteps(l: nat, i: nat)
    requires l >= 2 && Power(l, i) < LIMIT_256
    ensures i < 256
  {
    if i >= 256 {
      PowerGrows(l, 256, i);
      PowerDoubles(l, 256);
      TwoTo256();
    }
  }

  // ---------------------------------------------------------------- evaluation

  method Evaluate(e: Eq, x: nat) returns (y: Option<nat>)
    requires Wordy(e) && x < LIMIT_256
    ensures y == Apply(e, x)
  {
    match e
    case Constant(c) => y := Some(c);
    case Variable => y := Some(x);
    case Binary(op, l, r) =>
      var a := Evaluate(l, x);
      if a.None? {
        return None;
      }
      var b := Evaluate(r, x);
      if b.None? {
        return None;
      }
      if op == Exp {
        var rounds;
        y, rounds := Pow(a.value, b.value);
      } else {
        y := Operate(op, a.value, b.value);
      }
  }

  // ---------------------------------------------------------------- monotone curves

  /** Defined below every point where it is defined, and never falling. */
  ghost predicate Rising(e: Eq) {
    forall x: nat, y: nat :: x <= y < LIMIT_256 && Apply(e, y).Some? ==> RisesTo(e, x, y)
  }

  predicate RisesTo(e: Eq, x: nat, y: nat) {
    Apply(e, y).Some? && Apply(e, x).Some? && Apply(e, x).value <= Apply(e, y).value
  }

  /** A sufficient shape: sums and products, constant exponents and constant non-zero divisors. */
  predicate Polynomial(e: Eq) {
    match e
    case Variable => true
    case Constant(c) => c < LIMIT_256
    case Binary(Add, l, r) => Polynomial(l) && Polynomial(r)
    case Binary(Mul, l, r) => Polynomial(l) && Polynomial(r)
    case Binary(Exp, l, Constant(c)) => Polynomial(l) && c < LIMIT_256
    case Binary(Div, l, Constant(c)) => Polynomial(l) && 0 < c < LIMIT_256
    case _ => false
  }

  lemma ProductGrows(a: nat, b: nat, c: nat, d: nat)
    requires a <= c && b <= d
    ensures a * b <= c * d
  {
    TimesUpTo(a, c, b);
    TimesUpTo(b, d, c);
  }

  lemma {:induction false} PowerRises(a: nat, b: nat, r: nat)
    requires a <= b
    ensures Power(a, r) <= Power(b, r)
  {
    if r > 0 {
      PowerRises(a, b, r - 1);
      ProductGrows(Power(a, r - 1), a, Power(b, r - 1), b);
    }
  }

  lemma QuotientRises(a: nat, b: nat, c: nat)
    requires a <= b && c > 0
    ensures a / c <= b / c
  {
    if a / c > b / c {
      TimesUpTo(b / c + 1, a / c, c);
    }
  }

  /** The operation rises when both sides do, for the shapes above. */
  lemma OperationRises(op: Op, a: nat, b: nat, c: nat, d: nat)
    requires a <= c && b <= d && Operate(op, c, d).Some?
    requires op.Add? || op.Mul? || ((op.Exp? || op.Div?) && b == d)
    ensures Operate(op, a, b).Some? && Operate(op, a, b).value <= Operate(op, c, d).value
  {
    match op
    case Add =>
    case Mul => ProductGrows(a, b, c, d);
    case Exp => PowerRises(a, c, b);
    case Div => QuotientRises(a, c, b);
  }

  lemma {:induction false} PolynomialRisesTo(e: Eq, x: nat, y: nat)
    requires Polynomial(e) && x <= y && Apply(e, y).Some?
    ensures RisesTo(e, x, y)
  {
    if e.Binary? {
      PolynomialRisesTo(e.left, x, y);
      PolynomialRisesTo(e.right, x, y);
      OperationRises(e.op, Apply(e.left, x).value, Apply(e.right, x).value,
                     Apply(e.left, y).value, Apply(e.right, y).value);
    }
  }

  /** Such a curve never falls, and is defined below every point where it is defined. */
  lemma PolynomialRises(e: Eq)
    requires Polynomial(e)
    ensures Rising(e)
  {
    forall x: nat, y: nat | x <= y < LIMIT_256 && Apply(e, y).Some?
      ensures RisesTo(e, x, y)
    {
      PolynomialRisesTo(e, x, y);
    }
  }
}
