# generate_random_dimensions, modelled in Dafny

`generate_random_dimensions` produces a *shape*: a tuple of `num_dimensions`
positive integers, each in `[min_size, max_size]`, optionally with an exact
product (`total_elements`) and an exact GCD (`gcd_constraint`). When several
shapes qualify, it picks one at random with the caller's `random.Random`.

`generate_random_dimensions.py` holds only the function's signature and its
docstring. This model therefore implements the documented contract with a
straightforward algorithm, and proves that the algorithm meets the contract:

1. **Validation** (`WellFormed`). The five argument checks. Any failure gives
   `Err(InvalidArgument)`.
2. **Early checks** (`EarlyFeasible`). These reject a request before any search
   when:
   - the GCD value lies outside the bounds;
   - the product lies outside `[min_size^n, max_size^n]`;
   - both constraints are given and the product is not a multiple of
     `gcd_constraint^n`.

   `EarlyChecksLoseNothing` proves that these checks never reject a satisfiable
   request.
3. **Admissible values** (`Admissible`). The integers in the bounds. With a GCD
   constraint, only its multiples are kept.
4. **Enumeration** (`Candidates`/`Branches`). Every length-`n` shape over the
   admissible values whose product is the target. A first entry that does not
   divide the remaining product is pruned together with its subtree.
   `CandidatesExact` proves that the pruning loses no shape. `KeepContaining`
   then keeps the shapes that contain the GCD value.
5. **Selection** (`Generate`). The random number generator becomes a
   caller-supplied `draw: nat`. The result is `Solutions(r)[draw % |Solutions(r)|]`.
   Every solution can be reached by some draw. No solution appears twice in the
   list, so a uniform draw over positions is a uniform draw over shapes.
6. **Failure**. A well-formed request with no solution gives `Err(Incompatible)`
   when both optional constraints were given, and `Err(NotFound)` otherwise.

Files:
- `wrappers.dfy`: `Option` and `Result`.
- `arith.dfy`: product, power, divisibility, and Euclid's GCD folded over a
  shape the way `reduce(math.gcd, shape)` folds it.
- `generator.dfy`: the operation and its proofs.
- `test_cases.dfy`: the test suite's concrete calls, stated as lemmas.

## Model

| member | source | states |
|---|---|---|
| `ShapeGenerator.Generate` | generate_random_dimensions.py:9-86 | Raises the invalid-argument error exactly when one of the five argument checks fails. For valid arguments, returns a shape exactly when some shape meets the bounds, the product and the GCD constraint. A returned shape meets all of them and is the solution at position `draw` mod the number of solutions. Infeasibility gives `Incompatible` when both constraints are given, and `NotFound` otherwise |
| `ShapeGenerator.Admissible` | generate_random_dimensions.py:27-39 | A value is admissible exactly when it lies in `[min_size, max_size]` and, under a GCD constraint, is a multiple of it. The list is strictly increasing |
| `ShapeGenerator.CandidatesExact` | generate_random_dimensions.py:48-52 | A shape is enumerated exactly when it has the requested length, every entry is admissible, and its product is the target. Pruning by divisibility loses no solution |
| `ShapeGenerator.KeepContainingExact` | generate_random_dimensions.py:37-39 | The GCD filter keeps exactly the shapes that contain the GCD value |
| `ShapeGenerator.SolutionsExact` | generate_random_dimensions.py:48-54 | The solution list holds exactly the shapes that satisfy the request: soundness and completeness |
| `ShapeGenerator.SolutionsDistinct` | generate_random_dimensions.py:84-86 | No shape appears twice among the solutions, so choosing a position uniformly chooses a shape uniformly |
| `ShapeGenerator.SatisfiableIsEarlyFeasible` | generate_random_dimensions.py:68-73 | A satisfiable request passes every early check: the GCD value is within the bounds, the product is within `[min_size^n, max_size^n]`, and the product is a multiple of `gcd_constraint^n` |
| `ShapeGenerator.EarlyChecksLoseNothing` | generate_random_dimensions.py:68-71 | When an early check fails, no shape satisfies the request |
| `ShapeGenerator.EverySolutionIsDrawn` | generate_random_dimensions.py:40-44 | Every satisfying shape is returned for some draw, so selection ranges over the whole solution set |
| `ShapeGenerator.DrawSelectsPosition` | generate_random_dimensions.py:84-86 | A draw below the number of solutions returns the solution at that position |
| `ShapeGenerator.ResultHasExactGcd` | generate_random_dimensions.py:53-54 | Under a GCD constraint, the GCD of the returned entries is exactly the constraint |
| `ShapeGenerator.ZeroDimensions` | generate_random_dimensions.py:80-82 | Zero dimensions give the empty shape when there is no GCD constraint and the product is absent or 1. Otherwise they give the infeasibility error |
| `ShapeGenerator.UniqueSolutionIsReturned` | generate_random_dimensions.py:84-86 | A request with exactly one satisfying shape returns it for every draw |
| `ShapeGenerator.EqualBoundsForceShape` | test_generate_random_dimensions.py:118-121 | `n` dimensions with `min_size == max_size == v` give `n` copies of `v` for every draw |
| `Arith.MultiplesWithWitnessHaveGcd` | generate_random_dimensions.py:35-39 | If every entry is a multiple of `g` and one entry equals `g`, the GCD of the entries is `g` |
| `Arith.GcdDividesBoth` | test_generate_random_dimensions.py:47 | Euclid's algorithm yields a positive common divisor of its arguments |
| `Arith.CommonDivisorDividesGcd` | test_generate_random_dimensions.py:47 | Every common divisor divides the result of Euclid's algorithm |
| `Arith.GcdSeqDividesAll` | test_generate_random_dimensions.py:47 | The GCD folded over a non-empty shape of positive entries is positive and divides every entry |
| `Arith.CommonDivisorDividesGcdSeq` | test_generate_random_dimensions.py:47 | Every common divisor of the entries divides their folded GCD |
| `Arith.PowDividesProduct` | generate_random_dimensions.py:68-71 | If every entry is a multiple of `g`, the product is a multiple of `g^n` |
| `Arith.ProductBounds` | generate_random_dimensions.py:48-52 | A product of `n` entries in `[lo, hi]` lies in `[lo^n, hi^n]` |
| `Arith.MulDivUnique` | generate_random_dimensions.py:32-34 | `a * p == n` holds exactly when `a` divides `n` with quotient `p`. Pruning by divisibility relies on this |
| `ShapeExamples.TotalForcesPair` | test_generate_random_dimensions.py:9-12 | `(2, total 4, [2,2])` returns `(2, 2)` |
| `ShapeExamples.BothConstraintsForceShape` | test_generate_random_dimensions.py:15-19 | `(3, total 216, gcd 6, [6,6])` returns `(6, 6, 6)` |
| `ShapeExamples.ManyDimensions` | test_generate_random_dimensions.py:22-27 | Ten dimensions in `[1,2]` give a shape of length 10 with entries in range |
| `ShapeExamples.ZeroDimensionsEmpty` | test_generate_random_dimensions.py:30-39 | Zero dimensions return `()`, both with no product and with `total_elements=1` |
| `ShapeExamples.GcdEqualToMin` | test_generate_random_dimensions.py:42-48 | `(2, gcd 5, [5,15])` returns multiples of 5 in range, with GCD 5 and a 5 among them |
| `ShapeExamples.IncompatibleConstraints` | test_generate_random_dimensions.py:51-67 | `(2, [5,20], total 150, gcd 5)` raises the mutually-incompatible error |
| `ShapeExamples.PrimeTotal` | test_generate_random_dimensions.py:78-83 | `(2, total 17, [1,20])` returns `(1, 17)` or `(17, 1)` |
| `ShapeExamples.SeventeenFactors` | test_generate_random_dimensions.py:80 | The only two-factor splits of 17 are `1 * 17` and `17 * 1` |
| `ShapeExamples.CustomMinMax` | test_generate_random_dimensions.py:70-75 | Four dimensions in `[5,8]` give a shape of length 4 with entries in range |
| `ShapeExamples.SingleDimension` | test_generate_random_dimensions.py:86-91 | One dimension with default bounds gives one entry in `[1,10]` |
| `ShapeExamples.BasicCase` | test_generate_random_dimensions.py:101-106 | Three dimensions with default bounds give three entries in `[1,10]` |
| `ShapeExamples.GcdConstraintThree` | test_generate_random_dimensions.py:109-115 | `(3, gcd 3, [3,12])` returns three multiples of 3 in range, with GCD 3 and a 3 among them |
| `ShapeExamples.TotalHundred` | test_generate_random_dimensions.py:124-129 | `(2, total 100, [1,20])` returns two entries in range whose product is 100 |
| `ShapeExamples.FortyTwoUnreachable` | test_generate_random_dimensions.py:94-98 | One dimension with default bounds and `total_elements=42` raises |
| `ShapeExamples.EqualMinMax` | test_generate_random_dimensions.py:118-121 | `(3, [5,5])` returns `(5, 5, 5)` |
| `ShapeExamples.GcdReadingsDisagree` | generate_random_dimensions.py:35-39 | `(10, 15)` has GCD 5 and product 150 within `[5,20]` but contains no 5. It meets the literal GCD reading and not the stricter one |

## Left out

- `random.Random` and the global `random` module: a caller-supplied `draw` replaces them. The model states that every solution is reachable and that solutions are distinct. It makes no statement about probability distributions, because Dafny cannot express one.
- Python's dynamic typing: non-integer arguments, and `TypeError` for them, are not modelled. Python integers are unbounded, like Dafny's `int`.
- The text of the `ValueError` messages: errors are the three tags `InvalidArgument`, `Incompatible` and `NotFound`.
- Ordering: the docstring lets the implementation pick any order (generate_random_dimensions.py:75-78). This model lists solutions in lexicographic order of increasing admissible values.
- Search cost: the model prunes by divisibility of the remaining product only. Per-step bound pruning (the smallest or largest admissible value raised to the remaining count) is not modelled, since it only speeds up the search.
- The early product check uses `min_size^n` and `max_size^n`, not the smallest and largest admissible values. This is sound but can reject less before the search. The search still finds every infeasible case.
- Determinism for a seeded generator follows because `Generate` is a function: equal requests and equal draws give equal results.

## Findings

| source | as written | input that shows it | evidently intended | confidence | as-written member | corrected member |
|---|---|---|---|---|---|---|
| generate_random_dimensions.py:35-39 | "GCD of the dimensions equals `gcd_constraint`" is called equivalent to "every dimension is a multiple of it and one equals it" | `gcd_constraint=5`, shape `(10, 15)`: GCD 5, no entry equal to 5. Under the GCD-only reading, the request at test_generate_random_dimensions.py:52-67 would be satisfiable by `(10, 15)` | The stricter reading (multiples, with one entry equal to the value). The tests at test_generate_random_dimensions.py:48, :115 and :52-67 assert it, and it implies the GCD-only reading | high; not executed | `ShapeExamples.GcdReadingsDisagree` | `ShapeGenerator.ResultHasExactGcd` |
