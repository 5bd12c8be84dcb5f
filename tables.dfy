/** A 2x2 contingency table and the order in which fisher_swap compares tables. */
module Tables {

  /** The table
        a b
        c d
      as the 4-tuple (a, b, c, d) that fisher_swap takes and returns. */
  datatype Table = Table(a: int, b: int, c: int, d: int)

  /** The cells in row-major order. */
  function Cells(t: Table): seq<int>
  {
    [t.a, t.b, t.c, t.d]
  }

  lemma CellsBag(t: Table)
    ensures multiset(Cells(t)) == multiset{t.a, t.b, t.c, t.d}
  {
  }

  function Total(t: Table): int
  {
    t.a + t.b + t.c + t.d
  }

  /** The row sums (top, bottom). */
  function RowSums(t: Table): (int, int)
  {
    (t.a + t.b, t.c + t.d)
  }

  /** The column sums (left, right). */
  function ColumnSums(t: Table): (int, int)
  {
    (t.a + t.c, t.b + t.d)
  }

  /** a*d - b*c: positive when the table leans towards its main diagonal. */
  function CrossDifference(t: Table): int
  {
    t.a * t.d - t.b * t.c
  }

  /** Equal as unordered pairs. */
  predicate SameUnorderedPair(p: (int, int), q: (int, int))
  {
    p == q || (p.0 == q.1 && p.1 == q.0)
  }

  /** u has the marginals of t up to swapping the two sums of a pair and
      swapping the row sums with the column sums. */
  predicate SameMargins(u: Table, t: Table)
  {
    || (SameUnorderedPair(RowSums(u), RowSums(t)) && SameUnorderedPair(ColumnSums(u), ColumnSums(t)))
    || (SameUnorderedPair(RowSums(u), ColumnSums(t)) && SameUnorderedPair(ColumnSums(u), RowSums(t)))
  }

  /** Tables with the same marginals have the same total. */
  lemma SameMarginsSameTotal(u: Table, t: Table)
    requires SameMargins(u, t)
    ensures Total(u) == Total(t)
  {
  }

  /** Three adjacent transpositions of a bag of four cells. */
  lemma SwapFront(w: int, x: int, y: int, z: int)
    ensures multiset{x, w, y, z} == multiset{w, x, y, z}
  {
  }

  lemma SwapMiddle(w: int, x: int, y: int, z: int)
    ensures multiset{w, y, x, z} == multiset{w, x, y, z}
  {
  }

  lemma SwapBack(w: int, x: int, y: int, z: int)
    ensures multiset{w, x, z, y} == multiset{w, x, y, z}
  {
  }

  /** The sort key of fisher_swap is the tuple (comb[0], comb[1], comb[2], comb[3]);
      tuples compare lexicographically, so `x >= y` on keys is this predicate. */
  predicate LexGe(x: Table, y: Table)
  {
    || x.a > y.a
    || (x.a == y.a && x.b > y.b)
    || (x.a == y.a && x.b == y.b && x.c > y.c)
    || (x.a == y.a && x.b == y.b && x.c == y.c && x.d >= y.d)
  }

  lemma LexGeTotal(x: Table, y: Table)
    ensures LexGe(x, y) || LexGe(y, x)
  {
  }

  lemma LexGeAntisymmetric(x: Table, y: Table)
    requires LexGe(x, y) && LexGe(y, x)
    ensures x == y
  {
  }

  lemma LexGeTransitive(x: Table, y: Table, z: Table)
    requires LexGe(x, y) && LexGe(y, z)
    ensures LexGe(x, z)
  {
  }
}
