/** The eight rearrangements of a 2x2 table listed in FISHER_COMBINATIONS, and the
    fact that they are exactly the symmetries of the square. */
module Combinations {
  import opened Tables

  /** The keys of `vals`: one letter per cell, in row-major order. */
  const Letters: string := "abcd"

  /** FISHER_COMBINATIONS: identity, transpose, column swap, quarter-turn,
      the opposite quarter-turn, row swap, anti-transpose and half-turn. */
  const FisherCombinations: seq<string> :=
    ["abcd", "acbd", "badc", "bdac", "cadb", "cdab", "dbca", "dcba"]

  /** A letter-string that `vals[letter]` can read without a KeyError. */
  predicate IsCombination(p: string)
  {
    |p| == 4 && p[0] in Letters && p[1] in Letters && p[2] in Letters && p[3] in Letters
  }

  /** The position of a cell's letter in row-major order. */
  function Index(letter: char): (i: nat)
    requires letter in Letters
    ensures i < 4 && Letters[i] == letter
  {
    if letter == 'a' then 0
    else if letter == 'b' then 1
    else if letter == 'c' then 2
    else 3
  }

  /** The cell that a letter names, looked up in the dictionary from letters to cells. */
  function Lookup(t: Table, letter: char): (v: int)
    requires letter in Letters
    ensures v == Cells(t)[Index(letter)]
  {
    if letter == 'a' then t.a
    else if letter == 'b' then t.b
    else if letter == 'c' then t.c
    else t.d
  }

  /** The table whose i-th cell, in row-major order, is the cell named by the i-th letter of p. */
  function Rearrange(t: Table, p: string): Table
    requires IsCombination(p)
  {
    Table(Lookup(t, p[0]), Lookup(t, p[1]), Lookup(t, p[2]), Lookup(t, p[3]))
  }

  /** The letter-string of "first rearrange by p, then by q". */
  function Compose(p: string, q: string): (s: string)
    requires IsCombination(p) && IsCombination(q)
    ensures IsCombination(s)
  {
    [p[Index(q[0])], p[Index(q[1])], p[Index(q[2])], p[Index(q[3])]]
  }

  /** The cell on the same diagonal: a and d share one diagonal, b and c the other. */
  function Partner(letter: char): (m: char)
    requires letter in Letters
    ensures m in Letters && m != letter
  {
    if letter == 'a' then 'd'
    else if letter == 'b' then 'c'
    else if letter == 'c' then 'b'
    else 'a'
  }

  /** Every cell appears exactly once. */
  predicate IsPermutation(p: string)
  {
    && IsCombination(p)
    && p[0] != p[1] && p[0] != p[2] && p[0] != p[3]
    && p[1] != p[2] && p[1] != p[3] && p[2] != p[3]
  }

  /** A symmetry of the square with corners a, b, d, c in turn: a permutation of
      the cells that sends each diagonal ({a, d} and {b, c}) onto a diagonal. */
  predicate IsSquareSymmetry(p: string)
  {
    IsPermutation(p) && p[3] == Partner(p[0]) && p[2] == Partner(p[1])
  }

  lemma {:induction false} CombinationsAreSymmetries()
    ensures forall k :: 0 <= k < |FisherCombinations| ==> IsSquareSymmetry(FisherCombinations[k])
  {
    forall k | 0 <= k < |FisherCombinations| ensures IsSquareSymmetry(FisherCombinations[k]) {
      if k == 0 { assert FisherCombinations[k] == "abcd"; }
      else if k == 1 { assert FisherCombinations[k] == "acbd"; }
      else if k == 2 { assert FisherCombinations[k] == "badc"; }
      else if k == 3 { assert FisherCombinations[k] == "bdac"; }
      else if k == 4 { assert FisherCombinations[k] == "cadb"; }
      else if k == 5 { assert FisherCombinations[k] == "cdab"; }
      else if k == 6 { assert FisherCombinations[k] == "dbca"; }
      else { assert FisherCombinations[k] == "dcba"; }
    }
  }

  /** FISHER_COMBINATIONS lists every symmetry of the square and nothing else. */
  lemma {:induction false} SymmetryIffListed(p: string)
    ensures IsSquareSymmetry(p) <==> p in FisherCombinations
  {
    CombinationsAreSymmetries();
    if IsSquareSymmetry(p) {
      assert p == [p[0], p[1], p[2], p[3]];
      if p[0] == 'a' {
        if p[1] == 'b' { assert p == FisherCombinations[0]; } else { assert p == FisherCombinations[1]; }
      } else if p[0] == 'b' {
        if p[1] == 'a' { assert p == FisherCombinations[2]; } else { assert p == FisherCombinations[3]; }
      } else if p[0] == 'c' {
        if p[1] == 'a' { assert p == FisherCombinations[4]; } else { assert p == FisherCombinations[5]; }
      } else {
        if p[1] == 'b' { assert p == FisherCombinations[6]; } else { assert p == FisherCombinations[7]; }
      }
    }
  }

  /** Applying p and then q is applying their composite. */
  lemma RearrangeCompose(t: Table, p: string, q: string)
    requires IsCombination(p) && IsCombination(q)
    ensures Rearrange(Rearrange(t, p), q) == Rearrange(t, Compose(p, q))
  {
  }

  /** 'abcd', the first entry of FISHER_COMBINATIONS, leaves the table as it is
      and is neutral for composition. */
  lemma IdentityListed(t: Table, p: string)
    requires IsCombination(p)
    ensures Letters == FisherCombinations[0]
    ensures Rearrange(t, Letters) == t
    ensures Compose(p, Letters) == p && Compose(Letters, p) == p
  {
    assert Compose(Letters, p) == [p[0], p[1], p[2], p[3]];
  }

  /** Reading a symmetry at the partner of a cell gives the partner of its reading. */
  lemma PartnerCommutes(p: string, letter: char)
    requires IsSquareSymmetry(p) && letter in Letters
    ensures p[Index(Partner(letter))] == Partner(p[Index(letter)])
  {
  }

  lemma ComposeKeepsSymmetry(p: string, q: string)
    requires IsSquareSymmetry(p) && IsSquareSymmetry(q)
    ensures IsSquareSymmetry(Compose(p, q))
  {
    PartnerCommutes(p, q[0]);
    PartnerCommutes(p, q[1]);
  }

  /** FISHER_COMBINATIONS is closed under composition. */
  lemma {:induction false} ClosedUnderCompose(p: string, q: string)
    requires p in FisherCombinations && q in FisherCombinations
    ensures IsCombination(p) && IsCombination(q)
    ensures Compose(p, q) in FisherCombinations
  {
    SymmetryIffListed(p);
    SymmetryIffListed(q);
    ComposeKeepsSymmetry(p, q);
    SymmetryIffListed(Compose(p, q));
  }

  /** The position at which a permutation holds a letter. */
  function Position(p: string, letter: char): (i: nat)
    requires IsPermutation(p) && letter in Letters
    ensures i < 4 && p[i] == letter
  {
    if p[0] == letter then 0
    else if p[1] == letter then 1
    else if p[2] == letter then 2
    else 3
  }

  /** The rearrangement that undoes p. */
  function Inverse(p: string): (r: string)
    requires IsSquareSymmetry(p)
    ensures IsSquareSymmetry(r)
    ensures Compose(p, r) == Letters && Compose(r, p) == Letters
  {
    var r := [Letters[Position(p, 'a')], Letters[Position(p, 'b')],
              Letters[Position(p, 'c')], Letters[Position(p, 'd')]];
    assert Compose(p, r) == Letters;
    assert Compose(r, p) == Letters;
    r
  }

  /** Every entry of FISHER_COMBINATIONS has its inverse in the list, so the list
      is a group under composition. */
  lemma {:induction false} InverseListed(p: string)
    requires p in FisherCombinations
    ensures IsSquareSymmetry(p) && Inverse(p) in FisherCombinations
  {
    SymmetryIffListed(p);
    SymmetryIffListed(Inverse(p));
  }

  /** The table that entry k of FISHER_COMBINATIONS produces, written out. */
  lemma {:induction false} ListedRearrangement(t: Table, k: nat)
    requires k < |FisherCombinations|
    ensures IsCombination(FisherCombinations[k])
    ensures Rearrange(t, FisherCombinations[k]) ==
      if k == 0 then Table(t.a, t.b, t.c, t.d)
      else if k == 1 then Table(t.a, t.c, t.b, t.d)
      else if k == 2 then Table(t.b, t.a, t.d, t.c)
      else if k == 3 then Table(t.b, t.d, t.a, t.c)
      else if k == 4 then Table(t.c, t.a, t.d, t.b)
      else if k == 5 then Table(t.c, t.d, t.a, t.b)
      else if k == 6 then Table(t.d, t.b, t.c, t.a)
      else Table(t.d, t.c, t.b, t.a)
  {
    CombinationsAreSymmetries();
  }

  /** A symmetry only moves cells around: the table keeps its cell values. */
  lemma {:induction false} SymmetryKeepsCells(t: Table, p: string)
    requires IsSquareSymmetry(p)
    ensures multiset(Cells(Rearrange(t, p))) == multiset(Cells(t))
  {
    SymmetryIffListed(p);
    var k :| 0 <= k < |FisherCombinations| && FisherCombinations[k] == p;
    var u := Rearrange(t, p);
    ListedKeepsBag(t, k);
    CellsBag(t);
    CellsBag(u);
  }

  lemma {:induction false} ListedKeepsBag(t: Table, k: nat)
    requires k < |FisherCombinations|
    ensures IsCombination(FisherCombinations[k])
    ensures var u := Rearrange(t, FisherCombinations[k]);
      multiset{u.a, u.b, u.c, u.d} == multiset{t.a, t.b, t.c, t.d}
  {
    ListedRearrangement(t, k);
    var (a, b, c, d) := (t.a, t.b, t.c, t.d);
    if k == 1 {
      SwapMiddle(a, b, c, d);
    } else if k == 2 {
      SwapFront(a, b, c, d); SwapBack(b, a, c, d);
    } else if k == 3 {
      SwapFront(a, b, c, d); SwapBack(b, a, c, d); SwapMiddle(b, a, d, c);
    } else if k == 4 {
      SwapMiddle(a, b, c, d); SwapFront(a, c, b, d); SwapBack(c, a, b, d);
    } else if k == 5 {
      SwapMiddle(a, b, c, d); SwapFront(a, c, b, d); SwapBack(c, a, b, d); SwapMiddle(c, a, d, b);
    } else if k == 6 {
      SwapBack(a, b, c, d); SwapMiddle(a, b, d, c); SwapFront(a, d, b, c); SwapMiddle(d, a, b, c);
      SwapBack(d, b, a, c);
    } else if k == 7 {
      SwapFront(a, b, c, d); SwapBack(b, a, c, d); SwapMiddle(b, a, d, c);
      SwapFront(b, d, a, c); SwapBack(d, b, a, c); SwapMiddle(d, b, c, a);
    }
  }

  /** A symmetry keeps the marginals, up to swapping the two sums of a pair and
      swapping the row sums with the column sums. */
  lemma {:induction false} SymmetryKeepsMargins(t: Table, p: string)
    requires IsSquareSymmetry(p)
    ensures SameMargins(Rearrange(t, p), t)
  {
    SymmetryIffListed(p);
    var k :| 0 <= k < |FisherCombinations| && FisherCombinations[k] == p;
    ListedRearrangement(t, k);
  }

  /** A symmetry keeps the diagonal product difference a*d - b*c when it leaves the
      diagonal {a, d} on the main diagonal, and negates it when it moves b or c
      to the top-left corner. The second kind exchanges the two one-sided tails
      of the test: only the two-sided p-value is shared by all eight tables. */
  lemma {:induction false} SymmetryCrossDifference(t: Table, p: string)
    requires IsSquareSymmetry(p)
    ensures CrossDifference(Rearrange(t, p)) ==
      if p[0] == 'a' || p[0] == 'd' then CrossDifference(t) else -CrossDifference(t)
  {
    SymmetryIffListed(p);
    var k :| 0 <= k < |FisherCombinations| && FisherCombinations[k] == p;
    ListedRearrangement(t, k);
  }
}
