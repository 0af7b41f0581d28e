/**
 Laws of evaluation that say what each operation of a curve computes: a sum by its
 successors, a product by sums, a power by products, a difference and a quotient as
 what undoes them; and when each of them throws.
 */
module CurveLaws {
  import opened Wrappers
  import opened Buffers
  import opened Curves

  /** An operation on two results, of which either may be missing. */
  function Both(op: Op, l: Option<nat>, r: Option<nat>): Option<nat> {
    if l.None? || r.None? then None else Operate(op, l.value, r.value)
  }

  /** Only the values of the two sides matter, and a side that throws makes the operation throw. */
  lemma SidesDecide(op: Op, a: Eq, b: Eq, x: nat)
    ensures Apply(Binary(op, a, b), x) == Both(op, Apply(a, x), Apply(b, x))
  {
  }

  lemma Leaf(c: nat, x: nat)
    ensures Apply(Constant(c), x) == Some(c) && Apply(Variable, x) == Some(x)
  {
  }

  lemma ValueFits(a: Eq, x: nat)
    requires Wordy(a) && x < LIMIT_256
    ensures Apply(a, x).Some? ==> Apply(a, x).value < LIMIT_256
  {
  }

  // ---------------------------------------------------------------- sums and differences

  /** A sum is symmetric, has 0 as its neutral element, grows by one with its right side, and throws exactly past 256 bits. */
  lemma AddLaws(a: Eq, b: Eq, x: nat, c: nat)
    requires Wordy(a) && Wordy(b) && x < LIMIT_256
    ensures Apply(Binary(Add, a, b), x) == Apply(Binary(Add, b, a), x)
    ensures Apply(Binary(Add, a, Constant(0)), x) == Apply(a, x)
    ensures var s := Apply(Binary(Add, a, Constant(c)), x);
            Apply(Binary(Add, a, Constant(c + 1)), x) ==
            if s.Some? && s.value + 1 < LIMIT_256 then Some(s.value + 1) else None
    ensures Apply(a, x).Some? && Apply(b, x).Some? ==>
              (Apply(Binary(Add, a, b), x).Some? <==> Apply(a, x).value + Apply(b, x).value < LIMIT_256)
  {
    hide Apply, Wordy;
    SidesDecide(Add, a, b, x);
    SidesDecide(Add, b, a, x);
    SidesDecide(Add, a, Constant(0), x);
    SidesDecide(Add, a, Constant(c), x);
    SidesDecide(Add, a, Constant(c + 1), x);
    Leaf(0, x);
    Leaf(c, x);
    Leaf(c + 1, x);
    ValueFits(a, x);
  }

  /** A difference is what a sum undoes, and throws exactly where the right side is larger. */
  lemma SubLaws(a: Eq, b: Eq, x: nat, d: nat)
    requires Wordy(a) && Wordy(b) && x < LIMIT_256
    ensures Apply(Binary(Add, a, b), x).Some? ==> Apply(Binary(Sub, Binary(Add, a, b), b), x) == Apply(a, x)
    ensures Apply(Binary(Sub, a, b), x) == Some(d) <==>
            Apply(a, x).Some? && Apply(Binary(Add, Constant(d), b), x) == Apply(a, x)
    ensures Apply(a, x).Some? && Apply(b, x).Some? ==>
              (Apply(Binary(Sub, a, b), x).None? <==> Apply(a, x).value < Apply(b, x).value)
  {
    hide Apply, Wordy;
    SidesDecide(Add, a, b, x);
    SidesDecide(Sub, Binary(Add, a, b), b, x);
    SidesDecide(Sub, a, b, x);
    SidesDecide(Add, Constant(d), b, x);
    Leaf(d, x);
    ValueFits(a, x);
    ValueFits(b, x);
  }

  // ---------------------------------------------------------------- products

  lemma Distribute(p: nat, q: nat, r: nat)
    ensures p * (q + r) == p * q + p * r
  {
  }

  lemma Swap(p: nat, q: nat)
    ensures p * q == q * p
  {
  }

  lemma ProductOfSum(p: nat, q: nat, r: nat)
    requires q + r < LIMIT_256
    ensures Both(Mul, Some(p), Operate(Add, q, r)) == Both(Add, Operate(Mul, p, q), Operate(Mul, p, r))
  {
    hide Operate;
    Distribute(p, q, r);
    var m: nat := p * q;
    var n: nat := p * r;
    var k: nat := p * (q + r);
    ProductIs(p, q, m);
    ProductIs(p, r, n);
    ProductIs(p, q + r, k);
    SumIs(q, r);
    SumFits(m, n);
  }

  lemma ProductIs(l: nat, r: nat, m: nat)
    requires m == l * r
    ensures Operate(Mul, l, r) == Fit(m)
  {
  }

  lemma SumIs(l: nat, r: nat)
    ensures Operate(Add, l, r) == Fit(l + r)
  {
  }

  lemma SumFits(m: nat, n: nat)
    ensures Fit(m + n) == Both(Add, Fit(m), Fit(n))
  {
  }

  lemma ProductStep(p: nat, c: nat)
    requires p < LIMIT_256
    ensures Operate(Mul, p, c + 1) == Both(Add, Operate(Mul, p, c), Some(p)) && Operate(Mul, p, 0) == Some(0)
  {
    Distribute(p, c, 1);
  }

  lemma ProductSwaps(p: nat, q: nat)
    ensures Operate(Mul, p, q) == Operate(Mul, q, p)
  {
    Swap(p, q);
  }

  /** A product with 0 is 0, and each further factor adds the left side once more, overflows included. */
  lemma MulLaws(a: Eq, b: Eq, x: nat, c: nat)
    requires Wordy(a) && Wordy(b) && x < LIMIT_256
    ensures Apply(Binary(Mul, a, b), x) == Apply(Binary(Mul, b, a), x)
    ensures Apply(a, x).Some? ==> Apply(Binary(Mul, a, Constant(0)), x) == Some(0)
    ensures Apply(Binary(Mul, a, Constant(c + 1)), x) == Apply(Binary(Add, Binary(Mul, a, Constant(c)), a), x)
  {
    hide Apply, Wordy, Operate;
    SidesDecide(Mul, a, b, x);
    SidesDecide(Mul, b, a, x);
    SidesDecide(Mul, a, Constant(0), x);
    SidesDecide(Mul, a, Constant(c), x);
    SidesDecide(Mul, a, Constant(c + 1), x);
    SidesDecide(Add, Binary(Mul, a, Constant(c)), a, x);
    Leaf(0, x);
    Leaf(c, x);
    Leaf(c + 1, x);
    ValueFits(a, x);
    if Apply(a, x).Some? {
      ProductStep(Apply(a, x).value, c);
      if Apply(b, x).Some? {
        ProductSwaps(Apply(a, x).value, Apply(b, x).value);
      }
    }
  }

  /** A product of a sum is the sum of the products, wherever the sum is defined. */
  lemma MulDistributes(a: Eq, b: Eq, c: Eq, x: nat)
    requires Apply(Binary(Add, b, c), x).Some?
    ensures Apply(Binary(Mul, a, Binary(Add, b, c)), x)
            == Apply(Binary(Add, Binary(Mul, a, b), Binary(Mul, a, c)), x)
  {
    hide Apply;
    SidesDecide(Add, b, c, x);
    SidesDecide(Mul, a, Binary(Add, b, c), x);
    SidesDecide(Mul, a, b, x);
    SidesDecide(Mul, a, c, x);
    SidesDecide(Add, Binary(Mul, a, b), Binary(Mul, a, c), x);
    if Apply(a, x).Some? {
      ProductOfSum(Apply(a, x).value, Apply(b, x).value, Apply(c, x).value);
    }
  }

  // ---------------------------------------------------------------- quotients

  lemma QuotientFits(n: nat, d: nat)
    requires d > 0
    ensures n / d <= n && n % d < d && n % d <= n && (n / d) * d + n % d == n
  {
    TimesUpTo(1, d, n / d);
  }

  lemma QuotientIs(n: nat, d: nat, q: nat, r: nat)
    requires r < d && q * d + r == n
    ensures n / d == q && n % d == r
  {
    QuotientUnique(n, q, r, d);
    QuotientOf(n, q, r, d);
  }

  lemma DivisionLaw(n: nat, d: nat, q: nat, r: nat)
    requires n < LIMIT_256
    ensures Operate(Div, n, d).None? <==> d == 0
    ensures Operate(Mod, n, d).None? <==> d == 0
    ensures Operate(Div, n, d) == Some(q) && Operate(Mod, n, d) == Some(r) <==>
            r < d && Both(Add, Operate(Mul, q, d), Some(r)) == Some(n)
  {
    if d > 0 {
      QuotientFits(n, d);
      if r < d && q * d + r == n {
        QuotientIs(n, d, q, r);
      }
    }
  }

  /** Quotient and remainder are the one pair that makes up the dividend again, and both throw exactly for a divisor of 0. */
  lemma DivModLaws(a: Eq, b: Eq, x: nat, q: nat, r: nat)
    requires Wordy(a) && x < LIMIT_256 && Apply(a, x).Some? && Apply(b, x).Some?
    ensures Apply(Binary(Div, a, b), x).None? <==> Apply(b, x) == Some(0)
    ensures Apply(Binary(Mod, a, b), x).None? <==> Apply(b, x) == Some(0)
    ensures Apply(Binary(Div, a, b), x) == Some(q) && Apply(Binary(Mod, a, b), x) == Some(r) <==>
            r < Apply(b, x).value && Apply(Binary(Add, Binary(Mul, Constant(q), b), Constant(r)), x) == Apply(a, x)
  {
    hide Apply, Wordy, Operate;
    SidesDecide(Div, a, b, x);
    SidesDecide(Mod, a, b, x);
    SidesDecide(Mul, Constant(q), b, x);
    SidesDecide(Add, Binary(Mul, Constant(q), b), Constant(r), x);
    Leaf(q, x);
    Leaf(r, x);
    ValueFits(a, x);
    DivisionLaw(Apply(a, x).value, Apply(b, x).value, q, r);
  }

  // ---------------------------------------------------------------- powers

  lemma PowerStepLaw(l: nat, c: nat)
    ensures Operate(Exp, l, c + 1) == Both(Mul, Operate(Exp, l, c), Some(l)) && Operate(Exp, l, 0) == Some(1)
  {
    hide Power;
    PowerBase(l);
    PowerStep(l, c);
    if Power(l, c) >= LIMIT_256 {
      OverflowStays(l, c, c + 1);
    }
  }

  lemma PowerOfSum(l: nat, p: nat, q: nat)
    requires p + q < LIMIT_256
    ensures Both(Exp, Some(l), Operate(Add, p, q)) == Both(Mul, Operate(Exp, l, p), Operate(Exp, l, q))
  {
    hide Power;
    PowerAdds(l, p, q);
    if Power(l, p) >= LIMIT_256 {
      OverflowStays(l, p, p + q);
    }
    if Power(l, q) >= LIMIT_256 {
      OverflowStays(l, q, p + q);
    }
  }

  /** A power to 0 is 1, also of 0, and each further factor multiplies once more, overflows included. */
  lemma ExpLaws(a: Eq, x: nat, c: nat)
    ensures Apply(a, x).Some? ==> Apply(Binary(Exp, a, Constant(0)), x) == Some(1)
    ensures Apply(Binary(Exp, a, Constant(c + 1)), x) == Apply(Binary(Mul, Binary(Exp, a, Constant(c)), a), x)
  {
    hide Apply, Operate;
    SidesDecide(Exp, a, Constant(0), x);
    SidesDecide(Exp, a, Constant(c), x);
    SidesDecide(Exp, a, Constant(c + 1), x);
    SidesDecide(Mul, Binary(Exp, a, Constant(c)), a, x);
    Leaf(0, x);
    Leaf(c, x);
    Leaf(c + 1, x);
    if Apply(a, x).Some? {
      PowerStepLaw(Apply(a, x).value, c);
    }
  }

  /** A power to a sum is the product of the powers, wherever the sum is defined. */
  lemma ExpAdds(a: Eq, b: Eq, c: Eq, x: nat)
    requires Apply(Binary(Add, b, c), x).Some?
    ensures Apply(Binary(Exp, a, Binary(Add, b, c)), x)
            == Apply(Binary(Mul, Binary(Exp, a, b), Binary(Exp, a, c)), x)
  {
    hide Apply;
    SidesDecide(Add, b, c, x);
    SidesDecide(Exp, a, Binary(Add, b, c), x);
    SidesDecide(Exp, a, b, x);
    SidesDecide(Exp, a, c, x);
    SidesDecide(Mul, Binary(Exp, a, b), Binary(Exp, a, c), x);
    if Apply(a, x).Some? {
      PowerOfSum(Apply(a, x).value, Apply(b, x).value, Apply(c, x).value);
    }
  }
}
