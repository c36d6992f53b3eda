/**
 * `generate_random_dimensions`: a shape (tuple of positive integers) of a given
 * length whose entries lie in `[minSize, maxSize]`, optionally with an exact
 * product and an exact GCD, chosen from the full list of such shapes by a draw
 * that stands in for the caller's random number generator.
 *
 * The generator validates its arguments, rules out requests that simple
 * arithmetic already shows to be infeasible, enumerates every candidate shape
 * over the admissible values (pruning branches whose first value does not
 * divide the remaining product), keeps those meeting the GCD constraint, and
 * picks one of them.
 */
module ShapeGenerator {
  import opened Wrappers
  import opened Arith

  type Shape = seq<nat>

  /** The keyword arguments of one call; `None` is an argument left at its default of `None`. */
  datatype Request = Request(
    numDimensions: int,
    minSize: int,
    maxSize: int,
    totalElements: Option<int>,
    gcdConstraint: Option<int>)

  /** A call that leaves `min_size` and `max_size` at their defaults of 1 and 10. */
  function DefaultRequest(numDimensions: int, totalElements: Option<int>, gcdConstraint: Option<int>): Request
  {
    Request(numDimensions, 1, 10, totalElements, gcdConstraint)
  }

  /**
   * The reasons the function raises `ValueError`: a malformed argument, no shape
   * meeting both optional constraints together, or no shape meeting the others.
   */
  datatype Error = InvalidArgument | Incompatible | NotFound

  // ---------------------------------------------------------------------------
  // The contract

  /** The five argument checks made before any search. */
  predicate WellFormed(r: Request)
  {
    && r.numDimensions >= 0
    && r.minSize >= 1
    && r.maxSize >= r.minSize
    && (r.totalElements.Some? ==> r.totalElements.value >= 1)
    && (r.gcdConstraint.Some? ==> r.gcdConstraint.value >= 1)
  }

  /** Every entry is a multiple of `g` and at least one entry equals `g`. */
  predicate GcdConstraintMet(t: Shape, g: int)
  {
    && g >= 1
    && (forall i :: 0 <= i < |t| ==> t[i] % g == 0)
    && g in t
  }

  /** `t` is a shape the call may return. */
  predicate Satisfies(r: Request, t: Shape)
  {
    && |t| == r.numDimensions
    && (forall i :: 0 <= i < |t| ==> r.minSize <= t[i] <= r.maxSize)
    && (r.totalElements.Some? ==> Product(t) == r.totalElements.value)
    && (r.gcdConstraint.Some? ==> GcdConstraintMet(t, r.gcdConstraint.value))
  }

  /** The error raised by a well-formed request that no shape satisfies. */
  function InfeasibleError(r: Request): Error
  {
    if r.totalElements.Some? && r.gcdConstraint.Some? then Incompatible else NotFound
  }

  predicate Distinct<T(==)>(s: seq<T>)
  {
    forall i, j :: 0 <= i < j < |s| ==> s[i] != s[j]
  }

  // ---------------------------------------------------------------------------
  // Admissible values

  /** The values one dimension may take: `[lo, hi]`, restricted to multiples of `g` when given. */
  function Admissible(lo: nat, hi: nat, g: Option<nat>): (a: seq<nat>)
    requires g.Some? ==> g.value >= 1
    ensures forall x :: x in a <==> lo <= x <= hi && (g.Some? ==> x % g.value == 0)
    ensures forall i, j :: 0 <= i < j < |a| ==> a[i] < a[j]
    decreases hi + 1 - lo
  {
    if lo > hi then []
    else
      var rest := Admissible(lo + 1, hi, g);
      assert forall j :: 0 <= j < |rest| ==> rest[j] in rest;
      (if g.None? || lo % g.value == 0 then [lo] else []) + rest
  }

  // ---------------------------------------------------------------------------
  // Enumeration

  /** The remaining product once `a` has been chosen. */
  function Residual(target: Option<nat>, a: nat): Option<nat>
    requires a > 0
  {
    if target.None? then None else Some(target.value / a)
  }

  function Prepend(a: nat, ts: seq<Shape>): seq<Shape>
  {
    seq(|ts|, i requires 0 <= i < |ts| => [a] + ts[i])
  }

  /** `t` is a length-`n` shape over `values` whose product is `target` when one is given. */
  predicate Complete(n: nat, values: seq<nat>, target: Option<nat>, t: Shape)
  {
    && |t| == n
    && (forall i :: 0 <= i < |t| ==> t[i] in values)
    && (target.Some? ==> Product(t) == target.value)
  }

  /** Every shape of length `n` over `values` with product `target`, in lexicographic order of `values`. */
  function Candidates(n: nat, values: seq<nat>, target: Option<nat>): seq<Shape>
    requires forall x :: x in values ==> x > 0
    decreases n, 1, 0
  {
    if n == 0 then
      (if target.None? || target.value == 1 then [[]] else [])
    else
      Branches(n, values, values, target)
  }

  /**
   * The candidates of length `n > 0` whose first entry is one of `choices`; a
   * first entry that does not divide the target is pruned with its subtree.
   */
  function Branches(n: nat, values: seq<nat>, choices: seq<nat>, target: Option<nat>): seq<Shape>
    requires n > 0
    requires forall x :: x in values ==> x > 0
    requires forall x :: x in choices ==> x in values
    decreases n, 0, |choices|
  {
    if choices == [] then []
    else
      var a := choices[0];
      assert a in choices;
      var rest := Branches(n, values, choices[1..], target);
      if target.Some? && target.value % a != 0 then rest
      else Prepend(a, Candidates(n - 1, values, Residual(target, a))) + rest
  }

  /** A shape with the required GCD contains it; the others are dropped. */
  function KeepContaining(ts: seq<Shape>, g: nat): (r: seq<Shape>)
  {
    if ts == [] then []
    else (if g in ts[0] then [ts[0]] else []) + KeepContaining(ts[1..], g)
  }

  /** Every shape the request admits, each once. */
  function Solutions(r: Request): seq<Shape>
    requires WellFormed(r)
  {
    var values := Admissible(r.minSize, r.maxSize, NatOption(r.gcdConstraint));
    var cands := Candidates(r.numDimensions, values, NatOption(r.totalElements));
    if r.gcdConstraint.Some? then KeepContaining(cands, r.gcdConstraint.value) else cands
  }

  function NatOption(o: Option<int>): (r: Option<nat>)
    requires o.Some? ==> o.value >= 1
    ensures r.Some? == o.Some? && (r.Some? ==> r.value == o.value && r.value >= 1)
  {
    if o.None? then None else Some(o.value)
  }

  // ---------------------------------------------------------------------------
  // Early feasibility checks

  /**
   * Checks made before the search: the GCD value itself must be in range, the
   * product must lie between `minSize^n` and `maxSize^n`, and with both
   * constraints the product must be a multiple of `gcdConstraint^n`.
   */
  predicate EarlyFeasible(r: Request)
    requires WellFormed(r)
  {
    var n, lo, hi := r.numDimensions, r.minSize, r.maxSize;
    && (r.gcdConstraint.Some? ==> lo <= r.gcdConstraint.value <= hi)
    && (r.totalElements.Some? ==> Pow(lo, n) <= r.totalElements.value <= Pow(hi, n))
    && (r.totalElements.Some? && r.gcdConstraint.Some? ==>
          r.totalElements.value % Pow(r.gcdConstraint.value, n) == 0)
  }

  // ---------------------------------------------------------------------------
  // The operation

  /**
   * `generate_random_dimensions`: the shape at position `draw` (modulo the
   * number of solutions) of the list of all solutions, or the reason it raises.
   */
  function Generate(r: Request, draw: nat): (res: Result<Shape, Error>)
    ensures res == Err(InvalidArgument) <==> !WellFormed(r)
    ensures res.Ok? ==> Satisfies(r, res.value)
    ensures WellFormed(r) ==> (res.Ok? <==> exists t :: Satisfies(r, t))
    ensures WellFormed(r) && res.Err? ==> res.error == InfeasibleError(r)
    ensures WellFormed(r) && res.Ok? ==>
              |Solutions(r)| > 0 && res.value == Solutions(r)[draw % |Solutions(r)|]
  {
    if !WellFormed(r) then Err(InvalidArgument)
    else if !EarlyFeasible(r) then
      EarlyChecksLoseNothing(r);
      Err(InfeasibleError(r))
    else
      var sols := Solutions(r);
      SolutionsExact(r);
      if |sols| == 0 then Err(InfeasibleError(r))
      else Ok(sols[draw % |sols|])
  }

  // ---------------------------------------------------------------------------
  // Enumeration is sound and complete

  lemma PrependMembership(a: nat, ts: seq<Shape>, t: Shape)
    ensures t in Prepend(a, ts) <==> |t| > 0 && t[0] == a && t[1..] in ts
  {
    if |t| > 0 && t[0] == a && t[1..] in ts {
      var i :| 0 <= i < |ts| && ts[i] == t[1..];
      assert Prepend(a, ts)[i] == t;
    }
  }

  /** The enumeration lists exactly the complete shapes: pruning loses no solution. */
  lemma {:induction false} CandidatesExact(n: nat, values: seq<nat>, target: Option<nat>, t: Shape)
    requires forall x :: x in values ==> x > 0
    ensures t in Candidates(n, values, target) <==> Complete(n, values, target, t)
    decreases n, 1, 0
  {
    if n > 0 {
      BranchesExact(n, values, values, target, t);
    }
  }

  lemma {:induction false} BranchesExact(n: nat, values: seq<nat>, choices: seq<nat>, target: Option<nat>, t: Shape)
    requires n > 0
    requires forall x :: x in values ==> x > 0
    requires forall x :: x in choices ==> x in values
    ensures t in Branches(n, values, choices, target) <==> Complete(n, values, target, t) && t[0] in choices
    decreases n, 0, |choices|
  {
    if choices != [] {
      var a := choices[0];
      assert a in choices;
      BranchesExact(n, values, choices[1..], target, t);
      FirstBranchExact(n, values, a, target, t);
      assert |t| == n ==> (t[0] in choices <==> t[0] == a || t[0] in choices[1..]);
    }
  }

  /** The branch for first entry `a`: pruned exactly when no complete shape starts with `a`. */
  lemma {:induction false} FirstBranchExact(n: nat, values: seq<nat>, a: nat, target: Option<nat>, t: Shape)
    requires n > 0
    requires forall x :: x in values ==> x > 0
    requires a in values
    ensures (!(target.Some? && target.value % a != 0)
              && t in Prepend(a, Candidates(n - 1, values, Residual(target, a))))
            <==> Complete(n, values, target, t) && t[0] == a
    decreases n, 0, 0
  {
    var sub := Candidates(n - 1, values, Residual(target, a));
    PrependMembership(a, sub, t);
    if |t| > 0 {
      var tail := t[1..];
      CandidatesExact(n - 1, values, Residual(target, a), tail);
      if |t| == n && t[0] == a {
        assert t == [a] + tail;
        assert Product(t) == a * Product(tail);
        if target.Some? {
          MulDivUnique(a, Product(tail), target.value);
        }
        assert (forall i :: 0 <= i < |t| ==> t[i] in values)
           <==> (forall i :: 0 <= i < |tail| ==> tail[i] in values) by {
          if forall i :: 0 <= i < |tail| ==> tail[i] in values {
            forall i | 0 < i < |t| ensures t[i] in values {
              assert t[i] == tail[i - 1];
            }
          }
        }
      }
    }
  }

  lemma {:induction false} KeepContainingExact(ts: seq<Shape>, g: nat, t: Shape)
    ensures t in KeepContaining(ts, g) <==> t in ts && g in t
  {
    if ts != [] {
      KeepContainingExact(ts[1..], g, t);
      assert t in ts <==> t == ts[0] || t in ts[1..];
    }
  }

  /** The solution list holds exactly the shapes satisfying the request. */
  lemma SolutionsExact(r: Request)
    requires WellFormed(r)
    ensures forall t :: t in Solutions(r) <==> Satisfies(r, t)
  {
    var values := Admissible(r.minSize, r.maxSize, NatOption(r.gcdConstraint));
    var target := NatOption(r.totalElements);
    var cands := Candidates(r.numDimensions, values, target);
    forall t
      ensures t in Solutions(r) <==> Satisfies(r, t)
    {
      CandidatesExact(r.numDimensions, values, target, t);
      if r.gcdConstraint.Some? {
        KeepContainingExact(cands, r.gcdConstraint.value, t);
      }
    }
  }

  // ---------------------------------------------------------------------------
  // The early checks lose no solution

  lemma SatisfiableIsEarlyFeasible(r: Request, t: Shape)
    requires WellFormed(r) && Satisfies(r, t)
    ensures EarlyFeasible(r)
  {
    ProductBounds(t, r.minSize, r.maxSize);
    if r.gcdConstraint.Some? {
      var g := r.gcdConstraint.value;
      var k :| 0 <= k < |t| && t[k] == g;
      PowDividesProduct(t, g);
    }
  }

  /** When an early check fails, no shape satisfies the request. */
  lemma EarlyChecksLoseNothing(r: Request)
    requires WellFormed(r) && !EarlyFeasible(r)
    ensures forall t :: !Satisfies(r, t)
  {
    forall t | Satisfies(r, t)
      ensures false
    {
      SatisfiableIsEarlyFeasible(r, t);
    }
  }

  // ---------------------------------------------------------------------------
  // No solution is listed twice, so a uniform draw over positions is uniform over shapes

  lemma DistinctConcat<T>(x: seq<T>, y: seq<T>)
    requires Distinct(x) && Distinct(y)
    requires forall u :: u in x ==> u !in y
    ensures Distinct(x + y)
  {
    forall i, j | 0 <= i < j < |x + y|
      ensures (x + y)[i] != (x + y)[j]
    {
      if i < |x| && j >= |x| {
        assert (x + y)[i] in x && (x + y)[j] == y[j - |x|];
      }
    }
  }

  lemma {:induction false} CandidatesDistinct(n: nat, values: seq<nat>, target: Option<nat>)
    requires forall x :: x in values ==> x > 0
    requires Distinct(values)
    ensures Distinct(Candidates(n, values, target))
    decreases n, 1, 0
  {
    if n > 0 {
      BranchesDistinct(n, values, values, target);
    }
  }

  lemma {:induction false} BranchesDistinct(n: nat, values: seq<nat>, choices: seq<nat>, target: Option<nat>)
    requires n > 0
    requires forall x :: x in values ==> x > 0
    requires forall x :: x in choices ==> x in values
    requires Distinct(values) && Distinct(choices)
    ensures Distinct(Branches(n, values, choices, target))
    decreases n, 0, |choices|
  {
    if choices != [] {
      var a := choices[0];
      assert a in choices;
      var rest := Branches(n, values, choices[1..], target);
      BranchesDistinct(n, values, choices[1..], target);
      if !(target.Some? && target.value % a != 0) {
        var sub := Candidates(n - 1, values, Residual(target, a));
        CandidatesDistinct(n - 1, values, Residual(target, a));
        var front := Prepend(a, sub);
        forall i, j | 0 <= i < j < |front|
          ensures front[i] != front[j]
        {
          assert front[i][1..] == sub[i] && front[j][1..] == sub[j];
        }
        forall u | u in front
          ensures u !in rest
        {
          PrependMembership(a, sub, u);
          BranchesExact(n, values, choices[1..], target, u);
          assert a !in choices[1..] by {
            forall k | 0 <= k < |choices| - 1 ensures choices[1..][k] != a {
              assert choices[1..][k] == choices[k + 1];
            }
          }
        }
        DistinctConcat(front, rest);
      }
    }
  }

  lemma {:induction false} KeepContainingDistinct(ts: seq<Shape>, g: nat)
    requires Distinct(ts)
    ensures Distinct(KeepContaining(ts, g))
  {
    if ts != [] {
      KeepContainingDistinct(ts[1..], g);
      KeepContainingExact(ts[1..], g, ts[0]);
      assert ts[0] !in ts[1..] by {
        forall k | 0 <= k < |ts| - 1 ensures ts[1..][k] != ts[0] {
          assert ts[1..][k] == ts[k + 1];
        }
      }
      DistinctConcat(if g in ts[0] then [ts[0]] else [], KeepContaining(ts[1..], g));
    }
  }

  /** Each satisfying shape occurs in the solution list exactly once. */
  lemma SolutionsDistinct(r: Request)
    requires WellFormed(r)
    ensures Distinct(Solutions(r))
  {
    var values := Admissible(r.minSize, r.maxSize, NatOption(r.gcdConstraint));
    var target := NatOption(r.totalElements);
    CandidatesDistinct(r.numDimensions, values, target);
    if r.gcdConstraint.Some? {
      KeepContainingDistinct(Candidates(r.numDimensions, values, target), r.gcdConstraint.value);
    }
  }

  // ---------------------------------------------------------------------------
  // Properties of the operation

  /** Every satisfying shape is returned for some draw: selection ranges over the full solution set. */
  lemma EverySolutionIsDrawn(r: Request, t: Shape)
    requires WellFormed(r) && Satisfies(r, t)
    ensures exists draw: nat :: Generate(r, draw) == Ok(t)
  {
    SolutionsExact(r);
    var sols := Solutions(r);
    var i :| 0 <= i < |sols| && sols[i] == t;
    DrawSelectsPosition(r, i);
  }

  /** A draw within range selects the solution at that position. */
  lemma DrawSelectsPosition(r: Request, draw: nat)
    requires WellFormed(r) && draw < |Solutions(r)|
    ensures Generate(r, draw) == Ok(Solutions(r)[draw])
  {
    var sols := Solutions(r);
    SolutionsExact(r);
    assert sols[draw] in sols;
    assert Generate(r, draw).Ok?;
    assert draw % |sols| == draw;
  }

  /** With a GCD constraint, the GCD of the returned entries is exactly that value. */
  lemma ResultHasExactGcd(r: Request, draw: nat)
    requires Generate(r, draw).Ok? && r.gcdConstraint.Some?
    ensures GcdSeq(Generate(r, draw).value) == r.gcdConstraint.value
  {
    var t := Generate(r, draw).value;
    MultiplesWithWitnessHaveGcd(t, r.gcdConstraint.value);
  }

  /**
   * No dimensions: the empty shape, unless the product is required to be other
   * than 1 (the empty product) or a GCD value is required to appear in it.
   */
  lemma ZeroDimensions(r: Request, draw: nat)
    requires WellFormed(r) && r.numDimensions == 0
    ensures Generate(r, draw) ==
              if r.gcdConstraint.None? && (r.totalElements.None? || r.totalElements.value == 1)
              then Ok([])
              else Err(InfeasibleError(r))
  {
    if r.gcdConstraint.None? && (r.totalElements.None? || r.totalElements.value == 1) {
      assert Satisfies(r, []);
    }
  }

  /** A request with exactly one satisfying shape returns it, whatever the draw. */
  lemma UniqueSolutionIsReturned(r: Request, t: Shape, draw: nat)
    requires WellFormed(r) && Satisfies(r, t)
    requires forall u :: Satisfies(r, u) ==> u == t
    ensures Generate(r, draw) == Ok(t)
  {
  }

  /** Equal bounds force every entry: `n` dimensions in `[v, v]` give `n` copies of `v`. */
  lemma EqualBoundsForceShape(n: nat, v: nat, draw: nat)
    requires v >= 1
    ensures Generate(Request(n, v, v, None, None), draw) == Ok(seq(n, _ => v))
  {
    var r := Request(n, v, v, None, None);
    var t: Shape := seq(n, _ => v);
    forall u | Satisfies(r, u)
      ensures u == t
    {
    }
    UniqueSolutionIsReturned(r, t, draw);
  }
}
