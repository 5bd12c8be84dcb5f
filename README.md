# fisher_swap: one saved table per symmetry class of 2x2 tables

The FishersExactTest repository computes Fisher's exact test p-values for 2x2
contingency tables

    a b
    c d

Its test utilities state that eight rearrangements of a table's cells always
give the same p-value, so only one version of each table needs computing. The
tests enumerate every table whose cells are four increasing values from 0 to
19. One test compares each table's two-sided p-value with that of its saved
version; another computes the two-sided p-values of the saved versions only.
The eight rearrangements are listed as letter-strings in
`FISHER_COMBINATIONS` (identity, transpose, column swap, the two quarter-turns,
row swap, anti-transpose and half-turn). `fisher_swap(a, b, c, d)` builds the
eight rearranged 4-tuples. It sorts them in descending lexicographic order and
returns the first one. That tuple is the version that is computed and saved.

This project models that canonicaliser and proves what it promises:

- The result is one of the eight rearrangements of the input, and it is
  lexicographically at least as large as each of them.
- The sort's tie-breaking does not matter, because the greatest element is unique.
- The result keeps the four cell values, the total and the marginals. The
  marginals are kept up to swapping the two sums of a pair and swapping row
  sums with column sums.
- `FISHER_COMBINATIONS` is exactly the set of symmetries of the square. It is
  closed under composition, it contains the identity and every entry has its
  inverse in the list.
- The result is the same for all eight equivalent tables, and applying it twice
  gives the same result as applying it once.
- Two tables get the same saved version if and only if one is a rearrangement
  of the other.
- Four of the eight rearrangements (identity, transpose, anti-transpose,
  half-turn) keep the sign of a*d - b*c. The other four (column swap, both
  quarter-turns, row swap) negate it, and so exchange the "less" and "greater"
  one-sided tails. So only the two-sided p-value can be the same for all eight
  tables, and two-sided is the only alternative the tests pair with `fisher_swap`.

Modules, leaves first:

- `Tables` (tables.dfy): the 4-tuple, its cells, total and marginals, and the
  lexicographic comparison of the sort key `(comb[0], comb[1], comb[2], comb[3])`.
- `Sorting` (sorting.dfy): `sorted(..., reverse=True)` as a stable insertion sort.
- `Combinations` (combinations.dfy): the `FISHER_COMBINATIONS` strings, the
  `vals[letter]` lookup, composition of letter-strings and the group facts.
- `Canonical` (fisher_swap.dfy): `equivalent_combinations`, `fisher_swap` and
  its properties.

A letter-string `p` rearranges a table into the table whose i-th cell is
`vals[p[i]]`. `Compose(p, q)` is the string for "rearrange by `p`, then by
`q`". Python's tuple comparison is the predicate `LexGe`. `fisher_swap` is
`FisherSwap(a, b, c, d)`. The lemmas about it take a `Table t` and apply
`FisherSwap` to its four cells, as the tests call `fisher_swap(*table)`.

## Model

| member | source | states |
|---|---|---|
| Tables.LexGeTotal | tests/utils.py:37 | any two sort keys are comparable |
| Tables.LexGeAntisymmetric | tests/utils.py:37 | two keys that are each at least the other are the same 4-tuple, so ties in the sort are between identical tables |
| Tables.LexGeTransitive | tests/utils.py:37 | the key comparison is transitive |
| Sorting.Insert | tests/utils.py:37 | inserting into a descending list keeps it descending and adds exactly the one new element |
| Sorting.SortDescending | tests/utils.py:37 | `sorted(..., reverse=True)` returns a descending list holding the same elements, each as often |
| Sorting.HeadIsGreatest | tests/utils.py:37 | element `[0]` of the descending sort belongs to the input and is at least every input element |
| Combinations.Lookup | tests/utils.py:35 | `vals[letter]` is the cell at the letter's row-major position |
| Combinations.CombinationsAreSymmetries | tests/utils.py:22 | every entry of `FISHER_COMBINATIONS` is a permutation of the cells that maps diagonals onto diagonals |
| Combinations.SymmetryIffListed | tests/utils.py:22 | a letter-string is a symmetry of the square if and only if it is listed in `FISHER_COMBINATIONS` |
| Combinations.RearrangeCompose | tests/utils.py:36 | rearranging by `p` and then by `q` is rearranging once by their composite |
| Combinations.IdentityListed | tests/utils.py:22 | the first entry `'abcd'` leaves a table unchanged and is neutral for composition |
| Combinations.ComposeKeepsSymmetry | tests/utils.py:22 | composing two symmetries of the square gives a symmetry |
| Combinations.ClosedUnderCompose | tests/utils.py:22 | the composite of two listed strings is listed |
| Combinations.Inverse | tests/utils.py:22 | every symmetry has an inverse symmetry that undoes it on both sides |
| Combinations.InverseListed | tests/utils.py:22 | the inverse of each listed string is listed |
| Combinations.ListedRearrangement | tests/utils.py:22-36 | the eight tables that the listed strings produce, written out |
| Combinations.SymmetryKeepsCells | tests/utils.py:35-36 | a symmetry keeps the multiset of the four cell values |
| Combinations.SymmetryKeepsMargins | tests/utils.py:29-31 | a symmetry keeps the row and column sums up to order within and between the pairs |
| Combinations.SymmetryCrossDifference | tests/utils.py:29-31 | a symmetry keeps a*d - b*c when `a` or `d` stays top-left and negates it otherwise, so half of the listed strings exchange the one-sided tails |
| Canonical.FisherSwap | tests/utils.py:29-37 | the result is one of the eight rearrangements of the input and is lexicographically at least each of them |
| Canonical.FisherSwapIsTheMaximum | tests/utils.py:37 | any equivalent table that is at least all eight equals the result, so the result does not depend on how the sort breaks ties |
| Canonical.FisherSwapKeepsCells | tests/utils.py:35-36 | the result holds the same four values as the input and has the same total |
| Canonical.FisherSwapFirstIsMax | tests/utils.py:22-37 | the first component of the result is a cell of the input and at least every cell |
| Canonical.FisherSwapKeepsMargins | tests/utils.py:29-37 | the result has the input's marginals up to order within and between the row-sum and column-sum pairs |
| Canonical.RearrangedStaysEquivalent | tests/utils.py:22-36 | every table equivalent to a rearrangement of `t` is equivalent to `t` |
| Canonical.EquivalentCombinationsInvariant | tests/utils.py:22-36 | a listed rearrangement of `t` has exactly the same equivalent tables as `t` |
| Canonical.FisherSwapInvariant | tests/utils.py:30-37 | all eight equivalent tables have the same result, so one saved version serves them all |
| Canonical.FisherSwapIdempotent | tests/utils.py:33-37 | applying `fisher_swap` to its own result returns that result |
| Canonical.SelfEquivalent | tests/utils.py:22-36 | every table is among its own equivalent tables |
| Canonical.EquivalentSymmetric | tests/utils.py:22-36 | if `u` is equivalent to `t`, then `t` is equivalent to `u` |
| Canonical.EquivalentTransitive | tests/utils.py:22-36 | equivalence of tables is transitive |
| Canonical.SameFisherSwapIffEquivalent | tests/utils.py:30-37 | two tables have the same result if and only if one is a listed rearrangement of the other |

## Left out

- The p-value engine is not part of this model. This covers the `fast_fisher`
  variants imported at tests/utils.py:14 and their exact, log-space and compiled
  forms. Its source is not among the modelled files, and it is floating-point
  log-factorial arithmetic. The docstring's "same p-value" claim holds for the
  two-sided test, the only alternative used with `fisher_swap`. The model
  supports it only through its structural reason: the eight tables have the
  same cells and the same marginals up to order (`SymmetryKeepsCells`,
  `SymmetryKeepsMargins`). For the one-sided tests the claim does not hold:
  `SymmetryCrossDifference` shows that column swap, both quarter-turns and row
  swap reverse the direction of association, so they exchange the "less" and
  "greater" p-values. The equality of the computed floats is not modelled.
- `scipy_fisher_exact` (tests/utils.py:25-26) calls a foreign library.
- `get_disagreement_df` (tests/utils.py:40-51) ranks and filters a pandas
  DataFrame of floats.
- `is_equivalent` (tests/utils.py:54-59) compares floats for infinity, NaN and
  closeness.
- The numba compile fallback on ImportError (tests/utils.py:16-20) is build
  plumbing.
- benchmark.py, test.py and the sampling loops of tests/test_fast_fisher.py
  only time or compare the p-value engine.
- Python integers are unbounded, like Dafny's `int`, so no width is modelled.
  `fisher_swap` accepts any integers, negative ones included, and so does the model.
- The letter lookup `vals[letter]` can only fail for a letter outside `abcd`.
  No entry of `FISHER_COMBINATIONS` contains such a letter, so `Lookup`
  requires a letter of `abcd` instead of modelling a KeyError.
