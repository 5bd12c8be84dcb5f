/** fisher_swap: one representative for the eight tables that FISHER_COMBINATIONS
    declares equivalent, namely the lexicographically largest of them. */
module Canonical {
  import opened Tables
  import opened Sorting
  import opened Combinations

  /** equivalent_combinations: the table rearranged by each entry of
      FISHER_COMBINATIONS, in list order. */
  function EquivalentCombinations(t: Table): seq<Table>
  {
    CombinationsAreSymmetries();
    seq(|FisherCombinations|, k requires 0 <= k < |FisherCombinations| => Rearrange(t, FisherCombinations[k]))
  }

  /** fisher_swap(a, b, c, d): the first element of the equivalent tables sorted
      in descending lexicographic order. It is one of the eight rearrangements of
      the input and at least as large as each of them. */
  function FisherSwap(a: int, b: int, c: int, d: int): (r: Table)
    ensures r in EquivalentCombinations(Table(a, b, c, d))
    ensures forall x <- EquivalentCombinations(Table(a, b, c, d)) :: LexGe(r, x)
  {
    HeadIsGreatest(EquivalentCombinations(Table(a, b, c, d)));
    SortDescending(EquivalentCombinations(Table(a, b, c, d)))[0]
  }

  /** The result does not depend on how the sort breaks ties: it is the one
      greatest element of the equivalent tables. */
  lemma FisherSwapIsTheMaximum(t: Table, r: Table)
    requires r in EquivalentCombinations(t)
    requires forall x <- EquivalentCombinations(t) :: LexGe(r, x)
    ensures FisherSwap(t.a, t.b, t.c, t.d) == r
  {
    var s := FisherSwap(t.a, t.b, t.c, t.d);
    assert t == Table(t.a, t.b, t.c, t.d);
    LexGeAntisymmetric(s, r);
  }

  /** The result holds the same four values as the input, so the same total. */
  lemma {:induction false} FisherSwapKeepsCells(t: Table)
    ensures multiset(Cells(FisherSwap(t.a, t.b, t.c, t.d))) == multiset(Cells(t))
    ensures Total(FisherSwap(t.a, t.b, t.c, t.d)) == Total(t)
  {
    var r := FisherSwap(t.a, t.b, t.c, t.d);
    assert t == Table(t.a, t.b, t.c, t.d);
    var k :| 0 <= k < |FisherCombinations| && r == EquivalentCombinations(t)[k];
    CombinationsAreSymmetries();
    SymmetryKeepsCells(t, FisherCombinations[k]);
    FisherSwapKeepsMargins(t);
    SameMarginsSameTotal(r, t);
  }

  /** The top-left cell of the result is the largest cell of the input: every
      cell comes first in some entry of FISHER_COMBINATIONS. */
  lemma {:induction false} FisherSwapFirstIsMax(t: Table)
    ensures var r := FisherSwap(t.a, t.b, t.c, t.d);
      r.a in Cells(t) && r.a >= t.a && r.a >= t.b && r.a >= t.c && r.a >= t.d
  {
    var r := FisherSwap(t.a, t.b, t.c, t.d);
    assert t == Table(t.a, t.b, t.c, t.d);
    var rs := EquivalentCombinations(t);
    var k :| 0 <= k < |FisherCombinations| && r == rs[k];
    ListedRearrangement(t, k);
    ListedRearrangement(t, 2);
    ListedRearrangement(t, 4);
    ListedRearrangement(t, 6);
    assert LexGe(r, rs[0]) && LexGe(r, rs[2]) && LexGe(r, rs[4]) && LexGe(r, rs[6]);
  }

  /** The result has the marginals of the input, up to swapping the two sums of a
      pair and swapping rows with columns. */
  lemma {:induction false} FisherSwapKeepsMargins(t: Table)
    ensures SameMargins(FisherSwap(t.a, t.b, t.c, t.d), t)
  {
    var r := FisherSwap(t.a, t.b, t.c, t.d);
    assert t == Table(t.a, t.b, t.c, t.d);
    var k :| 0 <= k < |FisherCombinations| && r == EquivalentCombinations(t)[k];
    CombinationsAreSymmetries();
    SymmetryKeepsMargins(t, FisherCombinations[k]);
  }

  /** Every table equivalent to a rearrangement of t is equivalent to t. */
  lemma {:induction false} RearrangedStaysEquivalent(t: Table, p: string)
    requires p in FisherCombinations
    ensures IsCombination(p)
    ensures forall x <- EquivalentCombinations(Rearrange(t, p)) :: x in EquivalentCombinations(t)
  {
    SymmetryIffListed(p);
    var u := Rearrange(t, p);
    forall x | x in EquivalentCombinations(u) ensures x in EquivalentCombinations(t) {
      var k :| 0 <= k < |FisherCombinations| && x == EquivalentCombinations(u)[k];
      var q := FisherCombinations[k];
      RearrangeCompose(t, p, q);
      ClosedUnderCompose(p, q);
      var j :| 0 <= j < |FisherCombinations| && FisherCombinations[j] == Compose(p, q);
      assert x == EquivalentCombinations(t)[j];
    }
  }

  /** Rearranging a table by an entry of FISHER_COMBINATIONS does not change the
      set of tables equivalent to it. */
  lemma {:induction false} EquivalentCombinationsInvariant(t: Table, p: string)
    requires p in FisherCombinations
    ensures IsCombination(p)
    ensures forall x :: x in EquivalentCombinations(Rearrange(t, p)) <==> x in EquivalentCombinations(t)
  {
    RearrangedStaysEquivalent(t, p);
    var u := Rearrange(t, p);
    var v := Inverse(p);
    InverseListed(p);
    RearrangeCompose(t, p, v);
    IdentityListed(t, p);
    assert Rearrange(u, v) == t;
    RearrangedStaysEquivalent(u, v);
  }

  /** All eight equivalent tables share one saved version. */
  lemma {:induction false} FisherSwapInvariant(t: Table, p: string)
    requires p in FisherCombinations
    ensures IsCombination(p)
    ensures var u := Rearrange(t, p); FisherSwap(u.a, u.b, u.c, u.d) == FisherSwap(t.a, t.b, t.c, t.d)
  {
    var u := Rearrange(t, p);
    EquivalentCombinationsInvariant(t, p);
    assert t == Table(t.a, t.b, t.c, t.d) && u == Table(u.a, u.b, u.c, u.d);
    var r := FisherSwap(u.a, u.b, u.c, u.d);
    FisherSwapIsTheMaximum(t, r);
  }

  /** Applying fisher_swap to its own result changes nothing. */
  lemma {:induction false} FisherSwapIdempotent(t: Table)
    ensures var r := FisherSwap(t.a, t.b, t.c, t.d); FisherSwap(r.a, r.b, r.c, r.d) == r
  {
    var r := FisherSwap(t.a, t.b, t.c, t.d);
    assert t == Table(t.a, t.b, t.c, t.d);
    var k :| 0 <= k < |FisherCombinations| && r == EquivalentCombinations(t)[k];
    CombinationsAreSymmetries();
    FisherSwapInvariant(t, FisherCombinations[k]);
  }

  /** Being one of the equivalent tables is reflexive, symmetric and transitive. */
  lemma SelfEquivalent(t: Table)
    ensures t in EquivalentCombinations(t)
  {
    IdentityListed(t, Letters);
    assert t == EquivalentCombinations(t)[0];
  }

  lemma {:induction false} EquivalentSymmetric(t: Table, u: Table)
    requires u in EquivalentCombinations(t)
    ensures t in EquivalentCombinations(u)
  {
    var k :| 0 <= k < |FisherCombinations| && u == EquivalentCombinations(t)[k];
    EquivalentCombinationsInvariant(t, FisherCombinations[k]);
    SelfEquivalent(t);
  }

  lemma {:induction false} EquivalentTransitive(t: Table, u: Table, v: Table)
    requires u in EquivalentCombinations(t) && v in EquivalentCombinations(u)
    ensures v in EquivalentCombinations(t)
  {
    var k :| 0 <= k < |FisherCombinations| && u == EquivalentCombinations(t)[k];
    EquivalentCombinationsInvariant(t, FisherCombinations[k]);
  }

  /** Two tables get the same saved version exactly when one is a rearrangement
      of the other by an entry of FISHER_COMBINATIONS. */
  lemma {:induction false} SameFisherSwapIffEquivalent(t: Table, u: Table)
    ensures FisherSwap(u.a, u.b, u.c, u.d) == FisherSwap(t.a, t.b, t.c, t.d) <==> u in EquivalentCombinations(t)
  {
    assert t == Table(t.a, t.b, t.c, t.d) && u == Table(u.a, u.b, u.c, u.d);
    if u in EquivalentCombinations(t) {
      var k :| 0 <= k < |FisherCombinations| && u == EquivalentCombinations(t)[k];
      FisherSwapInvariant(t, FisherCombinations[k]);
    }
    if FisherSwap(u.a, u.b, u.c, u.d) == FisherSwap(t.a, t.b, t.c, t.d) {
      var r := FisherSwap(t.a, t.b, t.c, t.d);
      EquivalentSymmetric(u, r);
      EquivalentTransitive(t, r, u);
    }
  }
}
