/** The ascending sort that the median aggregator applies to its samples
    (`std::sort` with the default `<` comparison). Only its contract matters:
    the result is ascending and a permutation of the input, and
    `SortedUnique` shows that this contract leaves no freedom, so any sort
    meeting it yields the same sequence. */
module Sorting {

  predicate Ascending(s: seq<int>) {
    forall i, j :: 0 <= i < j < |s| ==> s[i] <= s[j]
  }

  /** A sequence whose neighbours are in order is ascending. */
  lemma {:induction false} AscendingByNeighbours(s: seq<int>)
    requires forall i :: 0 <= i < |s| - 1 ==> s[i] <= s[i + 1]
    ensures Ascending(s)
  {
    if |s| > 1 {
      AscendingByNeighbours(s[1..]);
      forall j | 1 <= j < |s| ensures s[0] <= s[j] {
        assert s[1..][0] <= s[1..][j - 1];
      }
    }
  }

  /** Inserts `x` into the ascending sequence `s`. */
  function Insert(x: int, s: seq<int>): (r: seq<int>)
    requires Ascending(s)
    ensures Ascending(r)
    ensures multiset(r) == multiset(s) + multiset{x}
    decreases |s|
  {
    if s == [] || x <= s[0] then
      PrependLeast(x, s);
      [x] + s
    else
      var tail := Insert(x, s[1..]);
      InsertedTail(x, s, tail);
      [s[0]] + tail
  }

  /** A value no greater than the head of an ascending sequence may be put in front of it. */
  lemma PrependLeast(x: int, s: seq<int>)
    requires Ascending(s) && (s == [] || x <= s[0])
    ensures Ascending([x] + s)
    ensures multiset([x] + s) == multiset(s) + multiset{x}
  {
  }

  /** Keeping the head in front of the tail with `x` inserted keeps the order and the elements. */
  lemma InsertedTail(x: int, s: seq<int>, tail: seq<int>)
    requires Ascending(s) && s != [] && s[0] < x
    requires Ascending(tail) && multiset(tail) == multiset(s[1..]) + multiset{x}
    ensures Ascending([s[0]] + tail)
    ensures multiset([s[0]] + tail) == multiset(s) + multiset{x}
  {
    assert s == [s[0]] + s[1..];
    forall k | 0 <= k < |tail| ensures s[0] <= tail[k] {
      assert tail[k] in multiset(tail);
    }
  }

  /** Sorts `s` ascending. */
  function Sort(s: seq<int>): (r: seq<int>)
    ensures Ascending(r)
    ensures multiset(r) == multiset(s)
    ensures |r| == |s|
    decreases |s|
  {
    if s == [] then []
    else
      assert s == [s[0]] + s[1..];
      Insert(s[0], Sort(s[1..]))
  }

  /** The first element of a non-empty ascending sequence is its least element. */
  lemma HeadIsLeast(s: seq<int>, v: int)
    requires Ascending(s) && v in multiset(s)
    ensures s[0] <= v
  {
    var k :| 0 <= k < |s| && s[k] == v;
  }

  /** Two ascending sequences with the same elements are equal: the sorted
      order of a multiset is unique. */
  lemma {:induction false} SortedUnique(s: seq<int>, t: seq<int>)
    requires Ascending(s) && Ascending(t)
    requires multiset(s) == multiset(t)
    ensures s == t
    decreases |s|
  {
    assert |s| == |multiset(s)| == |multiset(t)| == |t|;
    if s != [] {
      assert s[0] in multiset(s);
      assert t[0] in multiset(t);
      HeadIsLeast(t, s[0]);
      HeadIsLeast(s, t[0]);
      var x := s[0];
      assert t[0] == x;
      assert s == [x] + s[1..];
      assert t == [x] + t[1..];
      assert multiset(s) == multiset{x} + multiset(s[1..]);
      assert multiset(t) == multiset{x} + multiset(t[1..]);
      MultisetCancel(multiset{x}, multiset(s[1..]), multiset(t[1..]));
      SortedUnique(s[1..], t[1..]);
    }
  }

  lemma MultisetCancel(a: multiset<int>, b: multiset<int>, c: multiset<int>)
    requires a + b == a + c
    ensures b == c
  {
    forall v ensures b[v] == c[v] {
      assert (a + b)[v] == (a + c)[v];
    }
  }
}
