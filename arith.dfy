/**
 * The integer arithmetic the shape constraints are stated in: the product of a
 * shape, powers, divisibility and the Euclidean greatest common divisor, folded
 * over a shape the way `functools.reduce(math.gcd, shape)` folds it.
 */
module Arith {

  /** The product of all entries; the empty product is 1. */
  function Product(s: seq<nat>): nat
  {
    if s == [] then 1 else s[0] * Product(s[1..])
  }

  /** `b` to the power `e`; positive when `b` is. */
  function Pow(b: nat, e: nat): (r: nat)
    ensures b > 0 ==> r > 0
  {
    if e == 0 then 1 else b * Pow(b, e - 1)
  }

  /** `d` is a positive divisor of `n`. */
  predicate Divides(d: int, n: int)
  {
    d > 0 && n % d == 0
  }

  /** Euclid's algorithm on non-negative integers; `Gcd(0, 0) == 0`. */
  function Gcd(a: nat, b: nat): nat
    decreases b
  {
    if b == 0 then a else Gcd(b, a % b)
  }

  /** Left fold of `Gcd` over a shape, starting from 0 (the running GCD before any choice). */
  function GcdSeq(s: seq<nat>): nat
  {
    if s == [] then 0 else Gcd(GcdSeq(s[..|s| - 1]), s[|s| - 1])
  }

  // ---------------------------------------------------------------------------
  // Division facts

  /** Euclidean division is unique: `a * p == n` exactly when `a` divides `n` with quotient `p`. */
  lemma MulDivUnique(a: int, p: int, n: int)
    requires a > 0
    ensures a * p == n <==> (n % a == 0 && n / a == p)
  {
    var q, r := n / a, n % a;
    assert n == a * q + r && 0 <= r < a;
    if a * p == n {
      assert a * (p - q) == r;
      SmallMultipleIsZero(a, p - q);
    }
  }

  lemma SmallMultipleIsZero(a: int, k: int)
    requires a > 0 && 0 <= a * k < a
    ensures k == 0
  {
    if k >= 1 {
      MulAtLeast(a, k);
    }
  }

  lemma {:induction false} MulAtLeast(a: nat, k: nat)
    requires k >= 1
    ensures a * k >= a
  {
    if k > 1 {
      MulAtLeast(a, k - 1);
      assert a * k == a * (k - 1) + a;
    }
  }

  lemma MultipleDivisible(d: int, k: int)
    requires d > 0
    ensures Divides(d, d * k)
  {
    MulDivUnique(d, k, d * k);
  }

  /** A divisor is recovered as a factor: `n == d * (n / d)`. */
  lemma DividesFactor(d: int, n: int)
    requires Divides(d, n)
    ensures n == d * (n / d)
  {
  }

  lemma DividesSum(d: int, x: int, y: int)
    requires Divides(d, x) && Divides(d, y)
    ensures Divides(d, x + y) && Divides(d, x - y)
  {
    DividesFactor(d, x);
    DividesFactor(d, y);
    assert x + y == d * (x / d + y / d);
    assert x - y == d * (x / d - y / d);
    MultipleDivisible(d, x / d + y / d);
    MultipleDivisible(d, x / d - y / d);
  }

  lemma DividesMul(d: int, x: int, k: int)
    requires Divides(d, x)
    ensures Divides(d, x * k)
  {
    DividesFactor(d, x);
    assert x * k == d * ((x / d) * k);
    MultipleDivisible(d, (x / d) * k);
  }

  lemma DividesTrans(d: int, m: int, n: int)
    requires Divides(d, m) && Divides(m, n)
    ensures Divides(d, n)
  {
    DividesFactor(m, n);
    DividesMul(d, m, n / m);
  }

  /** A positive divisor of a positive number is not larger than it. */
  lemma DividesLe(d: int, n: int)
    requires Divides(d, n) && n > 0
    ensures d <= n
  {
    var q := n / d;
    DividesFactor(d, n);
    assert n - d == d * (q - 1);
    assert d * (q - 1) >= 0;
  }

  // ---------------------------------------------------------------------------
  // Euclid's algorithm

  /** The result of Euclid's algorithm divides both arguments. */
  lemma {:induction false} GcdDividesBoth(a: nat, b: nat)
    requires a > 0 || b > 0
    ensures Gcd(a, b) > 0 && Divides(Gcd(a, b), a) && Divides(Gcd(a, b), b)
    decreases b
  {
    if b == 0 {
      MultipleDivisible(a, 1);
    } else {
      var g := Gcd(b, a % b);
      GcdDividesBoth(b, a % b);
      assert g == Gcd(a, b);
      DividesMul(g, b, a / b);
      DividesSum(g, b * (a / b), a % b);
      assert a == b * (a / b) + a % b;
    }
  }

  /** Every common divisor divides the result of Euclid's algorithm: it is the greatest. */
  lemma {:induction false} CommonDivisorDividesGcd(d: int, a: nat, b: nat)
    requires Divides(d, a) && Divides(d, b)
    ensures Divides(d, Gcd(a, b))
    decreases b
  {
    if b != 0 {
      DividesMul(d, b, a / b);
      DividesSum(d, a, b * (a / b));
      assert a - b * (a / b) == a % b;
      CommonDivisorDividesGcd(d, b, a % b);
    }
  }

  // ---------------------------------------------------------------------------
  // GCD of a shape

  /** The GCD of a non-empty shape of positive entries is positive and divides every entry. */
  lemma {:induction false} GcdSeqDividesAll(s: seq<nat>)
    requires |s| > 0
    requires forall i :: 0 <= i < |s| ==> s[i] > 0
    ensures GcdSeq(s) > 0
    ensures forall i :: 0 <= i < |s| ==> Divides(GcdSeq(s), s[i])
  {
    var init, last := s[..|s| - 1], s[|s| - 1];
    var g := GcdSeq(s);
    GcdDividesBoth(GcdSeq(init), last);
    if |init| > 0 {
      GcdSeqDividesAll(init);
      forall i | 0 <= i < |s| - 1
        ensures Divides(g, s[i])
      {
        assert init[i] == s[i];
        DividesTrans(g, GcdSeq(init), s[i]);
      }
    }
  }

  /** Every common divisor of the entries divides their GCD. */
  lemma {:induction false} CommonDivisorDividesGcdSeq(d: int, s: seq<nat>)
    requires d > 0
    requires forall i :: 0 <= i < |s| ==> Divides(d, s[i])
    ensures Divides(d, GcdSeq(s))
  {
    if s != [] {
      var init := s[..|s| - 1];
      CommonDivisorDividesGcdSeq(d, init);
      CommonDivisorDividesGcd(d, GcdSeq(init), s[|s| - 1]);
    }
  }

  /**
   * If every entry is a multiple of `g` and some entry equals `g`, the GCD of
   * the entries is exactly `g`.
   */
  lemma MultiplesWithWitnessHaveGcd(s: seq<nat>, g: nat)
    requires g > 0 && g in s
    requires forall i :: 0 <= i < |s| ==> s[i] > 0 && Divides(g, s[i])
    ensures GcdSeq(s) == g
  {
    GcdSeqDividesAll(s);
    CommonDivisorDividesGcdSeq(g, s);
    var k :| 0 <= k < |s| && s[k] == g;
    DividesLe(GcdSeq(s), g);
    DividesLe(g, GcdSeq(s));
  }

  // ---------------------------------------------------------------------------
  // Products and powers

  /** When every entry is a multiple of `g`, the product is a multiple of `g` to the length. */
  lemma {:induction false} PowDividesProduct(s: seq<nat>, g: nat)
    requires g > 0
    requires forall i :: 0 <= i < |s| ==> Divides(g, s[i])
    ensures Divides(Pow(g, |s|), Product(s))
  {
    if s == [] {
      MultipleDivisible(1, 1);
    } else {
      var rest := s[1..];
      PowDividesProduct(rest, g);
      var gp := Pow(g, |rest|);
      DividesFactor(g, s[0]);
      DividesFactor(gp, Product(rest));
      var a, b := s[0] / g, Product(rest) / gp;
      calc {
        Product(s);
        s[0] * Product(rest);
        (g * a) * (gp * b);
        { assert (g * a) * (gp * b) == (g * gp) * (a * b); }
        (g * gp) * (a * b);
        Pow(g, |s|) * (a * b);
      }
      MultipleDivisible(Pow(g, |s|), a * b);
    }
  }

  lemma MulMonotone(a: nat, b: nat, c: nat, d: nat)
    requires a <= b && c <= d
    ensures a * c <= b * d
  {
    assert b * c - a * c == (b - a) * c;
    assert b * d - b * c == b * (d - c);
  }

  /** A product of entries in `[lo, hi]` lies in `[lo^n, hi^n]` for `n` entries. */
  lemma {:induction false} ProductBounds(s: seq<nat>, lo: nat, hi: nat)
    requires forall i :: 0 <= i < |s| ==> lo <= s[i] <= hi
    ensures Pow(lo, |s|) <= Product(s) <= Pow(hi, |s|)
  {
    if s != [] {
      ProductBounds(s[1..], lo, hi);
      MulMonotone(lo, s[0], Pow(lo, |s| - 1), Product(s[1..]));
      MulMonotone(s[0], hi, Product(s[1..]), Pow(hi, |s| - 1));
    }
  }
}
