/**
 * Sorted, duplicate-free views of a sequence of reals: what `np.unique`
 * returns and what a pandas pivot uses as its index and column labels.
 */
module Unique {

  /** Every element is strictly smaller than the ones after it. */
  predicate StrictlyIncreasing(s: seq<real>) {
    forall i, j :: 0 <= i < j < |s| ==> s[i] < s[j]
  }

  /** The set of values a sequence holds. */
  function Elems(s: seq<real>): set<real> {
    set x | x in s
  }

  lemma ElemsCons(x: real, s: seq<real>)
    ensures Elems([x] + s) == {x} + Elems(s)
  {
    assert forall y :: y in [x] + s <==> y == x || y in s;
  }

  lemma ElemsEmpty(s: seq<real>)
    ensures |s| == 0 <==> Elems(s) == {}
  {
    if |s| > 0 {
      assert s[0] in Elems(s);
    }
  }

  /** Putting a value below every element in front keeps a sequence strictly increasing. */
  lemma ConsIncreasing(y: real, s: seq<real>)
    requires StrictlyIncreasing(s)
    requires forall k :: 0 <= k < |s| ==> y < s[k]
    ensures StrictlyIncreasing([y] + s)
  {
    var t := [y] + s;
    forall i, j | 0 <= i < j < |t| ensures t[i] < t[j] {
      assert t[j] == s[j - 1];
      if i > 0 {
        assert t[i] == s[i - 1];
      }
    }
  }

  /** Inserts `x` into a strictly increasing sequence, keeping it strictly increasing. */
  function Insert(x: real, s: seq<real>): (r: seq<real>)
    requires StrictlyIncreasing(s)
    ensures StrictlyIncreasing(r)
    ensures Elems(r) == Elems(s) + {x}
    ensures |r| <= |s| + 1
  {
    if |s| == 0 then [x]
    else if x < s[0] then
      ElemsCons(x, s);
      ConsIncreasing(x, s);
      [x] + s
    else if x == s[0] then
      ElemsCons(s[0], s[1..]);
      assert s == [s[0]] + s[1..];
      s
    else
      ElemsTail(s);
      var tail := Insert(x, s[1..]);
      InsertAfterHead(x, s, tail);
      [s[0]] + tail
  }

  /** Inserting above the head: the head stays in front of the insertion into the rest. */
  lemma InsertAfterHead(x: real, s: seq<real>, tail: seq<real>)
    requires StrictlyIncreasing(s) && |s| > 0 && s[0] < x
    requires StrictlyIncreasing(tail) && Elems(tail) == Elems(s[1..]) + {x} && |tail| <= |s|
    ensures StrictlyIncreasing([s[0]] + tail)
    ensures Elems([s[0]] + tail) == Elems(s) + {x}
  {
    var rest := s[1..];
    forall k | 0 <= k < |rest| ensures s[0] < rest[k] {
      assert rest[k] == s[k + 1];
    }
    InsertAbove(s[0], x, rest, tail);
    ElemsTail(s);
    ElemsCons(s[0], tail);
    assert s[0] in Elems(s);
  }

  /** A value below `x` and below every element of `s` stays below their insertion. */
  lemma InsertAbove(y: real, x: real, s: seq<real>, tail: seq<real>)
    requires y < x && forall k :: 0 <= k < |s| ==> y < s[k]
    requires StrictlyIncreasing(tail) && Elems(tail) == Elems(s) + {x}
    ensures StrictlyIncreasing([y] + tail)
  {
    forall k | 0 <= k < |tail| ensures y < tail[k] {
      assert tail[k] in Elems(tail);
      if tail[k] != x {
        var p :| 0 <= p < |s| && s[p] == tail[k];
      }
    }
    ConsIncreasing(y, tail);
  }

  /** The distinct values of `s` in ascending order. */
  function SortedDistinct(s: seq<real>): (r: seq<real>)
    ensures StrictlyIncreasing(r)
    ensures Elems(r) == Elems(s)
    ensures |r| <= |s|
  {
    if |s| == 0 then []
    else
      var init := s[..|s| - 1];
      assert s == init + [s[|s| - 1]];
      assert Elems(s) == Elems(init) + {s[|s| - 1]};
      Insert(s[|s| - 1], SortedDistinct(init))
  }

  /** Dropping the head of a strictly increasing sequence removes exactly its smallest value. */
  lemma ElemsTail(a: seq<real>)
    requires StrictlyIncreasing(a) && |a| > 0
    ensures a == [a[0]] + a[1..]
    ensures StrictlyIncreasing(a[1..])
    ensures Elems(a[1..]) == Elems(a) - {a[0]}
  {
    assert a == [a[0]] + a[1..];
    forall x | x in a[1..] ensures x != a[0] {
      var k :| 0 <= k < |a[1..]| && a[1..][k] == x;
      assert a[k + 1] == x;
    }
    ElemsCons(a[0], a[1..]);
  }

  /** A strictly increasing sequence is determined by its set of values. */
  lemma {:induction false} StrictlyIncreasingUnique(a: seq<real>, b: seq<real>)
    requires StrictlyIncreasing(a) && StrictlyIncreasing(b)
    requires Elems(a) == Elems(b)
    ensures a == b
    decreases |a|
  {
    ElemsEmpty(a);
    ElemsEmpty(b);
    if |a| == 0 || |b| == 0 {
    } else {
      assert a[0] in Elems(b);
      assert b[0] in Elems(a);
      var i :| 0 <= i < |b| && b[i] == a[0];
      var j :| 0 <= j < |a| && a[j] == b[0];
      assert b[0] <= b[i] && a[0] <= a[j];
      ElemsTail(a);
      ElemsTail(b);
      StrictlyIncreasingUnique(a[1..], b[1..]);
    }
  }

  /** Sorting a sequence that is already sorted and duplicate-free changes nothing. */
  lemma SortedDistinctOfIncreasing(s: seq<real>)
    requires StrictlyIncreasing(s)
    ensures SortedDistinct(s) == s
  {
    StrictlyIncreasingUnique(SortedDistinct(s), s);
  }

  /** The result depends only on the set of values, not on their order or multiplicity. */
  lemma SortedDistinctBySet(s: seq<real>, t: seq<real>)
    requires Elems(s) == Elems(t)
    ensures SortedDistinct(s) == SortedDistinct(t)
  {
    StrictlyIncreasingUnique(SortedDistinct(s), SortedDistinct(t));
  }

  /** Taking the distinct sorted values twice is the same as taking them once. */
  lemma SortedDistinctIdempotent(s: seq<real>)
    ensures SortedDistinct(SortedDistinct(s)) == SortedDistinct(s)
  {
    SortedDistinctOfIncreasing(SortedDistinct(s));
  }
}
