/** Python's `sorted(..., reverse=True)` on tables, keyed by the whole tuple. */
module Sorting {
  import opened Tables

  /** Non-increasing in the lexicographic order. */
  predicate SortedDescending(s: seq<Table>)
  {
    forall i, j :: 0 <= i < j < |s| ==> LexGe(s[i], s[j])
  }

  /** Inserts `x` in front of the first element it is not smaller than, so that
      among equal keys the earlier element stays first (a stable sort). */
  function Insert(x: Table, s: seq<Table>): (r: seq<Table>)
    requires SortedDescending(s)
    ensures SortedDescending(r)
    ensures multiset(r) == multiset(s) + multiset{x}
    ensures |r| == |s| + 1
    ensures r[0] == x || (s != [] && r[0] == s[0])
  {
    if s == [] || LexGe(x, s[0]) then
      assert forall j :: 0 <= j < |s| ==> LexGe(x, s[j]) by {
        forall j | 0 <= j < |s| ensures LexGe(x, s[j]) {
          if j > 0 { LexGeTransitive(x, s[0], s[j]); }
        }
      }
      [x] + s
    else
      var rest := Insert(x, s[1..]);
      assert s == [s[0]] + s[1..];
      HeadAboveInserted(x, s, rest);
      [s[0]] + rest
  }

  /** When x goes below the head of s, the head stays above everything else. */
  lemma HeadAboveInserted(x: Table, s: seq<Table>, rest: seq<Table>)
    requires SortedDescending(s) && s != [] && !LexGe(x, s[0])
    requires multiset(rest) == multiset(s[1..]) + multiset{x}
    ensures forall j :: 0 <= j < |rest| ==> LexGe(s[0], rest[j])
  {
    LexGeTotal(x, s[0]);
    forall j | 0 <= j < |rest| ensures LexGe(s[0], rest[j]) {
      assert rest[j] in multiset(rest);
      if rest[j] != x {
        assert rest[j] in multiset(s[1..]);
        var i :| 0 <= i < |s[1..]| && s[1..][i] == rest[j];
        assert LexGe(s[0], s[i + 1]);
      }
    }
  }

  /** The elements of s in descending lexicographic order, equal elements in input order. */
  function SortDescending(s: seq<Table>): (r: seq<Table>)
    ensures SortedDescending(r)
    ensures multiset(r) == multiset(s)
    ensures |r| == |s|
  {
    if s == [] then []
    else
      assert s == [s[0]] + s[1..];
      Insert(s[0], SortDescending(s[1..]))
  }

  /** The first element of the descending sort is an element of the input that is
      lexicographically at least every element of the input. */
  lemma HeadIsGreatest(s: seq<Table>)
    requires s != []
    ensures SortDescending(s)[0] in s
    ensures forall x <- s :: LexGe(SortDescending(s)[0], x)
  {
    var r := SortDescending(s);
    assert r[0] in multiset(r);
    forall x <- s ensures LexGe(r[0], x) {
      assert x in multiset(r);
      var j :| 0 <= j < |r| && r[j] == x;
      if j == 0 {
        LexGeTotal(x, x);
      }
    }
  }
}
