/**
 * The concrete calls of the test suite, stated as lemmas about the model, and
 * the two readings of the GCD constraint side by side.
 */
module ShapeExamples {
  import opened Wrappers
  import opened Arith
  import opened ShapeGenerator

  /** `(2, total 4, [2, 2])`: the only shape is `(2, 2)`. */
  lemma TotalForcesPair(draw: nat)
    ensures Generate(Request(2, 2, 2, Some(4), None), draw) == Ok([2, 2])
  {
    var r := Request(2, 2, 2, Some(4), None);
    assert Satisfies(r, [2, 2]);
    UniqueSolutionIsReturned(r, [2, 2], draw);
  }

  /** `(3, total 216, gcd 6, [6, 6])`: the only shape is `(6, 6, 6)`. */
  lemma BothConstraintsForceShape(draw: nat)
    ensures Generate(Request(3, 6, 6, Some(216), Some(6)), draw) == Ok([6, 6, 6])
  {
    var r := Request(3, 6, 6, Some(216), Some(6));
    var t: Shape := [6, 6, 6];
    assert Product(t) == 216;
    assert t[0] == 6;
    assert Satisfies(r, t);
    UniqueSolutionIsReturned(r, t, draw);
  }

  /** `(3, [5, 5])` gives `(5, 5, 5)`. */
  lemma EqualMinMax(draw: nat)
    ensures Generate(Request(3, 5, 5, None, None), draw) == Ok([5, 5, 5])
  {
    EqualBoundsForceShape(3, 5, draw);
    assert seq(3, _ => 5) == [5, 5, 5];
  }

  /** Zero dimensions with default bounds, with or without `total_elements=1`, give `()`. */
  lemma ZeroDimensionsEmpty(draw: nat)
    ensures Generate(DefaultRequest(0, None, None), draw) == Ok([])
    ensures Generate(DefaultRequest(0, Some(1), None), draw) == Ok([])
  {
    ZeroDimensions(DefaultRequest(0, None, None), draw);
    ZeroDimensions(DefaultRequest(0, Some(1), None), draw);
  }

  /** One dimension in the default bounds cannot reach 42. */
  lemma FortyTwoUnreachable(draw: nat)
    ensures Generate(DefaultRequest(1, Some(42), None), draw) == Err(NotFound)
  {
    var r := DefaultRequest(1, Some(42), None);
    assert Pow(10, 1) == 10;
    assert !EarlyFeasible(r);
  }

  /**
   * `(2, [5, 20], total 150, gcd 5)` raises: a shape holding a 5 needs a second
   * entry of 30, beyond the upper bound.
   */
  lemma IncompatibleConstraints(draw: nat)
    ensures Generate(Request(2, 5, 20, Some(150), Some(5)), draw) == Err(Incompatible)
  {
    var r := Request(2, 5, 20, Some(150), Some(5));
    forall t | Satisfies(r, t)
      ensures false
    {
      NoPairWithFive(t);
    }
  }

  lemma NoPairWithFive(t: Shape)
    requires |t| == 2 && 5 in t && t[0] <= 20 && t[1] <= 20
    ensures Product(t) != 150
  {
    PairProduct(t);
    if t[0] == 5 {
      assert Product(t) == 5 * t[1];
    } else {
      assert t[1] == 5;
      assert Product(t) == t[0] * 5;
    }
  }

  /** `(2, total 17, [1, 20])`: a prime product forces the entries `{1, 17}`. */
  lemma PrimeTotal(draw: nat)
    ensures Generate(Request(2, 1, 20, Some(17), None), draw).Ok?
    ensures var t := Generate(Request(2, 1, 20, Some(17), None), draw).value;
            t == [1, 17] || t == [17, 1]
  {
    var r := Request(2, 1, 20, Some(17), None);
    assert Product([1, 17]) == 17;
    assert Satisfies(r, [1, 17]);
    var t := Generate(r, draw).value;
    PairProduct(t);
    SeventeenFactors(t[0], t[1]);
  }

  lemma PairProduct(t: Shape)
    requires |t| == 2
    ensures Product(t) == t[0] * t[1]
  {
    assert t[1..][1..] == [];
    assert Product(t[1..]) == t[1] * Product(t[1..][1..]);
  }

  /** The only factorisations of the prime 17 into two positive factors are `1 * 17` and `17 * 1`. */
  lemma SeventeenFactors(x: nat, y: nat)
    requires x * y == 17
    ensures (x == 1 && y == 17) || (x == 17 && y == 1)
  {
    assert x > 0;
    MulDivUnique(x, y, 17);
    assert NoDivisorBetween(17, 2, 16);
    NoDivisorBetweenExcludes(17, 2, 16, x);
    DividesLe(x, 17);
    if x == 1 {
      assert y == 17;
    } else {
      assert x == 17;
      assert 17 * y == 17;
    }
  }

  /** No integer in `[lo, hi]` divides `n`, checked one candidate at a time. */
  predicate NoDivisorBetween(n: nat, lo: nat, hi: nat)
    requires lo >= 1
    decreases hi + 1 - lo
  {
    lo > hi || (n % lo != 0 && NoDivisorBetween(n, lo + 1, hi))
  }

  lemma {:induction false} NoDivisorBetweenExcludes(n: nat, lo: nat, hi: nat, x: nat)
    requires lo >= 1 && NoDivisorBetween(n, lo, hi)
    ensures lo <= x <= hi ==> n % x != 0
    decreases hi + 1 - lo
  {
    if lo <= hi && x != lo {
      NoDivisorBetweenExcludes(n, lo + 1, hi, x);
    }
  }

  /** `(2, gcd 5, [5, 15])` returns a shape of multiples of 5 with GCD exactly 5 and a 5 in it. */
  lemma GcdEqualToMin(draw: nat)
    ensures var res := Generate(Request(2, 5, 15, None, Some(5)), draw);
            res.Ok? && 5 in res.value && GcdSeq(res.value) == 5
            && forall i :: 0 <= i < |res.value| ==> 5 <= res.value[i] <= 15 && res.value[i] % 5 == 0
  {
    var r := Request(2, 5, 15, None, Some(5));
    assert Satisfies(r, [5, 5]);
    ResultHasExactGcd(r, draw);
  }

  /** Ten dimensions in `[1, 2]` always produce a shape. */
  lemma ManyDimensions(draw: nat)
    ensures var res := Generate(Request(10, 1, 2, None, None), draw);
            res.Ok? && |res.value| == 10 && forall i :: 0 <= i < 10 ==> 1 <= res.value[i] <= 2
  {
    var t: Shape := seq(10, _ => 1);
    assert Satisfies(Request(10, 1, 2, None, None), t);
  }

  /** Four dimensions in `[5, 8]` give a shape of length 4 with entries in range. */
  lemma CustomMinMax(draw: nat)
    ensures var res := Generate(Request(4, 5, 8, None, None), draw);
            res.Ok? && |res.value| == 4 && forall i :: 0 <= i < 4 ==> 5 <= res.value[i] <= 8
  {
    var t: Shape := seq(4, _ => 5);
    assert Satisfies(Request(4, 5, 8, None, None), t);
  }

  /** One dimension with the default bounds gives one entry in `[1, 10]`. */
  lemma SingleDimension(draw: nat)
    ensures var res := Generate(DefaultRequest(1, None, None), draw);
            res.Ok? && |res.value| == 1 && 1 <= res.value[0] <= 10
  {
    assert Satisfies(DefaultRequest(1, None, None), [1]);
  }

  /** Three dimensions with the default bounds give three entries in `[1, 10]`. */
  lemma BasicCase(draw: nat)
    ensures var res := Generate(DefaultRequest(3, None, None), draw);
            res.Ok? && |res.value| == 3 && forall i :: 0 <= i < 3 ==> 1 <= res.value[i] <= 10
  {
    assert Satisfies(DefaultRequest(3, None, None), [1, 1, 1]);
  }

  /** `(3, gcd 3, [3, 12])` returns multiples of 3 in range, with GCD 3 and a 3 among them. */
  lemma GcdConstraintThree(draw: nat)
    ensures var res := Generate(Request(3, 3, 12, None, Some(3)), draw);
            res.Ok? && |res.value| == 3 && 3 in res.value && GcdSeq(res.value) == 3
            && forall i :: 0 <= i < |res.value| ==> 3 <= res.value[i] <= 12 && res.value[i] % 3 == 0
  {
    var r := Request(3, 3, 12, None, Some(3));
    var t: Shape := [3, 3, 3];
    assert t[0] == 3;
    assert Satisfies(r, t);
    ResultHasExactGcd(r, draw);
  }

  /** `(2, total 100, [1, 20])` returns two entries in range whose product is 100. */
  lemma TotalHundred(draw: nat)
    ensures var res := Generate(Request(2, 1, 20, Some(100), None), draw);
            res.Ok? && |res.value| == 2 && Product(res.value) == 100
            && forall i :: 0 <= i < 2 ==> 1 <= res.value[i] <= 20
  {
    var t: Shape := [10, 10];
    PairProduct(t);
    assert Satisfies(Request(2, 1, 20, Some(100), None), t);
  }

  // ---------------------------------------------------------------------------
  // The GCD constraint read literally

  /** The output clause read on its own: the GCD of the entries equals the constraint. */
  predicate SatisfiesGcdLiterally(r: Request, t: Shape)
  {
    && |t| == r.numDimensions
    && (forall i :: 0 <= i < |t| ==> r.minSize <= t[i] <= r.maxSize)
    && (r.totalElements.Some? ==> Product(t) == r.totalElements.value)
    && (r.gcdConstraint.Some? ==> GcdSeq(t) == r.gcdConstraint.value)
  }

  /**
   * The two readings of the GCD constraint differ: `(10, 15)` has GCD 5 and
   * product 150 within `[5, 20]`, yet holds no 5, so the request the test suite
   * expects to raise would be satisfiable under the literal reading.
   */
  lemma GcdReadingsDisagree()
    ensures var r := Request(2, 5, 20, Some(150), Some(5));
            SatisfiesGcdLiterally(r, [10, 15]) && !Satisfies(r, [10, 15])
  {
    assert GcdSeq([10]) == Gcd(0, 10) == 10;
    assert [10, 15][..1] == [10];
    assert Gcd(10, 15) == Gcd(15, 10) == Gcd(10, 5) == Gcd(5, 0) == 5;
    assert GcdSeq([10, 15]) == 5;
    assert Product([10, 15]) == 150;
  }
}
