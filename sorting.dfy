/// Ordering used by both the slice sequencer and the series catalog.
/// The source calls std::sort; the model sorts in place with an insertion sort
/// and promises only what std::sort promises: the result is ordered by the
/// comparison and is a permutation of the input (nothing about the order of ties).
module Sorting {

  /** `le` is total and transitive, the non-strict counterpart of a strict weak order. */
  ghost predicate TotalPreorder<T(!new)>(le: (T, T) -> bool)
  {
    && (forall a, b :: le(a, b) || le(b, a))
    && (forall a, b, c :: le(a, b) && le(b, c) ==> le(a, c))
  }

  predicate SortedBy<T>(s: seq<T>, le: (T, T) -> bool)
  {
    forall i, j :: 0 <= i < j < |s| ==> le(s[i], s[j])
  }

  /** Sorts `a` in place by `le`. */
  method InsertionSort<T(!new)>(a: array<T>, le: (T, T) -> bool)
    requires TotalPreorder(le)
    modifies a
    ensures SortedBy(a[..], le)
    ensures multiset(a[..]) == old(multiset(a[..]))
  {
    var i := 0;
    while i < a.Length
      invariant 0 <= i <= a.Length
      invariant forall k, l :: 0 <= k < l < i ==> le(a[k], a[l])
      invariant multiset(a[..]) == old(multiset(a[..]))
    {
      var j := i;
      while j > 0 && !le(a[j - 1], a[j])
        invariant 0 <= j <= i
        invariant forall k, l :: 0 <= k < l <= i && k != j && l != j ==> le(a[k], a[l])
        invariant forall l :: j < l <= i ==> le(a[j], a[l])
        invariant multiset(a[..]) == old(multiset(a[..]))
      {
        a[j - 1], a[j] := a[j], a[j - 1];
        j := j - 1;
      }
      i := i + 1;
    }
  }

  /** The comparison on reals that the ascending sorts use. */
  predicate RealLe(a: real, b: real) { a <= b }

  lemma RealLeTotalPreorder()
    ensures TotalPreorder(RealLe)
  {
  }

  /** Inserts x into an ascending sequence. */
  function Insert(x: real, s: seq<real>): (r: seq<real>)
    requires SortedBy(s, RealLe)
    ensures SortedBy(r, RealLe)
    ensures multiset(r) == multiset(s) + multiset{x}
    ensures |r| == |s| + 1
    decreases |s|
  {
    if s == [] || x <= s[0] then
      [x] + s
    else
      SortedTail(s);
      var rest := Insert(x, s[1..]);
      InsertStep(x, s, rest);
      [s[0]] + rest
  }

  /** Putting the head of s in front of x inserted into the tail of s. */
  lemma InsertStep(x: real, s: seq<real>, rest: seq<real>)
    requires SortedBy(s, RealLe) && s != [] && s[0] < x
    requires SortedBy(rest, RealLe) && multiset(rest) == multiset(s[1..]) + multiset{x}
    ensures SortedBy([s[0]] + rest, RealLe)
    ensures multiset([s[0]] + rest) == multiset(s) + multiset{x}
  {
    assert s == [s[0]] + s[1..];
    forall k | 0 <= k < |rest|
      ensures s[0] <= rest[k]
    {
      assert rest[k] in multiset(rest);
      if rest[k] != x {
        assert rest[k] in multiset(s[1..]);
        var m :| 0 <= m < |s[1..]| && s[1..][m] == rest[k];
        assert RealLe(s[0], s[m + 1]);
      }
    }
    var r := [s[0]] + rest;
    forall i, j | 0 <= i < j < |r|
      ensures RealLe(r[i], r[j])
    {
      if i > 0 {
        assert RealLe(rest[i - 1], rest[j - 1]);
      }
    }
  }

  /** The ascending arrangement of s (an insertion sort). */
  function SortReals(s: seq<real>): (r: seq<real>)
    ensures SortedBy(r, RealLe)
    ensures multiset(r) == multiset(s)
    ensures |r| == |s|
    decreases |s|
  {
    if s == [] then []
    else
      assert s == s[..|s| - 1] + [s[|s| - 1]];
      Insert(s[|s| - 1], SortReals(s[..|s| - 1]))
  }

  /** The head of an ascending sequence is below each of its elements. */
  lemma HeadIsLeast(s: seq<real>, e: real)
    requires SortedBy(s, RealLe) && e in s
    ensures s[0] <= e
  {
    var k :| 0 <= k < |s| && s[k] == e;
    if k > 0 {
      assert RealLe(s[0], s[k]);
    }
  }

  lemma SortedTail(s: seq<real>)
    requires SortedBy(s, RealLe) && s != []
    ensures SortedBy(s[1..], RealLe)
  {
    forall i, j | 0 <= i < j < |s[1..]|
      ensures RealLe(s[1..][i], s[1..][j])
    {
      assert RealLe(s[i + 1], s[j + 1]);
    }
  }

  /** Two ascending sequences with the same elements are equal: the ascending
      arrangement of a multiset of reals is unique, so any sort computes SortReals. */
  lemma {:induction false} SortedUnique(s: seq<real>, t: seq<real>)
    requires SortedBy(s, RealLe) && SortedBy(t, RealLe)
    requires multiset(s) == multiset(t)
    ensures s == t
  {
    if s == [] {
      assert |t| == |multiset(t)| == 0;
    } else {
      SameHead(s, t);
      TailMultiset(s);
      TailMultiset(t);
      SortedTail(s);
      SortedTail(t);
      SortedUnique(s[1..], t[1..]);
      assert s == [s[0]] + s[1..] && t == [t[0]] + t[1..];
    }
  }

  /** Ascending sequences with the same elements start with the same element. */
  lemma SameHead(s: seq<real>, t: seq<real>)
    requires SortedBy(s, RealLe) && SortedBy(t, RealLe)
    requires multiset(s) == multiset(t) && s != []
    ensures t != [] && s[0] == t[0]
  {
    assert s[0] in multiset(t);
    assert t != [];
    assert t[0] in multiset(s);
    HeadIsLeast(t, s[0]);
    HeadIsLeast(s, t[0]);
  }

  lemma TailMultiset(s: seq<real>)
    requires s != []
    ensures multiset(s[1..]) == multiset(s) - multiset{s[0]}
  {
    assert s == [s[0]] + s[1..];
  }

}
