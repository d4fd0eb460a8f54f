/**
 * Removing repeated values while keeping the first occurrence of each, in the
 * order of first occurrence.  Both `DataFrame.drop_duplicates()` (default
 * `keep='first'`) and `Series.unique()` behave this way, so both are modelled
 * by `Dedup`.
 */
module Unique {

  /** No value occurs twice in s. */
  predicate NoDup<T(==)>(s: seq<T>) {
    forall i, j :: 0 <= i < j < |s| ==> s[i] != s[j]
  }

  /** The position of the first occurrence of x in s. */
  function FirstIndex<T(==)>(s: seq<T>, x: T): (i: nat)
    requires x in s
    ensures i < |s| && s[i] == x && x !in s[..i]
  {
    if s[0] == x then 0 else 1 + FirstIndex(s[1..], x)
  }

  /** r lists its values in the order in which they first occur in s. */
  predicate InFirstOccurrenceOrder<T(==)>(s: seq<T>, r: seq<T>)
    requires forall i :: 0 <= i < |r| ==> r[i] in s
  {
    forall i, j :: 0 <= i < j < |r| ==> FirstIndex(s, r[i]) < FirstIndex(s, r[j])
  }

  /** a and b hold the same values, possibly with different multiplicities. */
  predicate SameValues<T(==)>(a: seq<T>, b: seq<T>) {
    (forall i :: 0 <= i < |a| ==> a[i] in b) && (forall j :: 0 <= j < |b| ==> b[j] in a)
  }

  /** First occurrences are not moved by appending to the end. */
  lemma {:induction false} FirstIndexPrefix<T>(s: seq<T>, n: nat, x: T)
    requires n <= |s| && x in s[..n]
    ensures FirstIndex(s, x) == FirstIndex(s[..n], x)
  {
    // Induction on the position of x; without it the solver's search is costly.
    if s[0] != x {
      assert s[1..][..n - 1] == s[..n][1..];
      FirstIndexPrefix(s[1..], n - 1, x);
    }
  }

  /** A value that first occurs before all values of r may be put in front of r. */
  lemma PrependKeepsOrder<T>(s: seq<T>, x: T, r: seq<T>)
    requires x in s && forall i :: 0 <= i < |r| ==> r[i] in s
    requires InFirstOccurrenceOrder(s, r)
    requires forall i :: 0 <= i < |r| ==> FirstIndex(s, x) < FirstIndex(s, r[i])
    ensures forall i :: 0 <= i < |[x] + r| ==> ([x] + r)[i] in s
    ensures InFirstOccurrenceOrder(s, [x] + r)
  {
    var xr := [x] + r;
    forall i, j | 0 <= i < j < |xr|
      ensures FirstIndex(s, xr[i]) < FirstIndex(s, xr[j])
    {
      assert xr[j] == r[j - 1];
      if i > 0 {
        assert xr[i] == r[i - 1];
      }
    }
  }

  /**
   * Keeps one copy of every value of s, the first one, in order of first
   * occurrence.
   */
  function Dedup<T(==)>(s: seq<T>): (r: seq<T>)
    ensures NoDup(r)
    ensures SameValues(r, s)
    ensures InFirstOccurrenceOrder(s, r)
    decreases |s|
  {
    if |s| == 0 then []
    else
      var d := Dedup(s[..|s| - 1]);
      if s[|s| - 1] in d then
        KeepEarlier(s, d);
        d
      else
        AppendFresh(s, d);
        d + [s[|s| - 1]]
  }

  /** A repeated last value leaves the first occurrences of s[..|s| - 1] as they are. */
  lemma KeepEarlier<T>(s: seq<T>, d: seq<T>)
    requires |s| > 0 && s[|s| - 1] in d
    requires SameValues(d, s[..|s| - 1])
    requires InFirstOccurrenceOrder(s[..|s| - 1], d)
    ensures SameValues(d, s)
    ensures InFirstOccurrenceOrder(s, d)
  {
    var init := s[..|s| - 1];
    assert s == init + [s[|s| - 1]];
    forall k | 0 <= k < |d|
      ensures FirstIndex(s, d[k]) == FirstIndex(init, d[k])
    {
      FirstIndexPrefix(s, |s| - 1, d[k]);
    }
  }

  /** A new last value first occurs after every earlier value. */
  lemma AppendFresh<T>(s: seq<T>, d: seq<T>)
    requires |s| > 0 && s[|s| - 1] !in d
    requires NoDup(d)
    requires SameValues(d, s[..|s| - 1])
    requires InFirstOccurrenceOrder(s[..|s| - 1], d)
    ensures NoDup(d + [s[|s| - 1]])
    ensures SameValues(d + [s[|s| - 1]], s)
    ensures InFirstOccurrenceOrder(s, d + [s[|s| - 1]])
  {
    var init := s[..|s| - 1];
    var last := s[|s| - 1];
    var r := d + [last];
    assert s == init + [last];
    assert last !in init;
    forall k | 0 <= k < |d|
      ensures FirstIndex(s, d[k]) == FirstIndex(init, d[k])
    {
      FirstIndexPrefix(s, |s| - 1, d[k]);
    }
    assert FirstIndex(s, last) == |s| - 1;
    forall i, j | 0 <= i < j < |r|
      ensures FirstIndex(s, r[i]) < FirstIndex(s, r[j])
    {
      assert r[i] == d[i];
      if j < |d| {
        assert r[j] == d[j];
      }
    }
  }

  /** In a sequence without repetitions every value's first index is its position. */
  lemma FirstIndexOfNoDup<T>(s: seq<T>, i: nat)
    requires NoDup(s) && i < |s|
    ensures FirstIndex(s, s[i]) == i
  {
    var k := FirstIndex(s, s[i]);
    assert s[k] == s[i];
  }

  /**
   * Dedup is the only sequence that has no repetitions, holds exactly the
   * values of s, and lists them in first-occurrence order.
   */
  lemma {:induction false} DedupUnique<T>(s: seq<T>, r: seq<T>)
    requires NoDup(r)
    requires SameValues(r, s)
    requires InFirstOccurrenceOrder(s, r)
    ensures r == Dedup(s)
  {
    OrderedByFirstIndexUnique(s, r, Dedup(s));
  }

  lemma {:induction false} OrderedByFirstIndexUnique<T>(s: seq<T>, a: seq<T>, b: seq<T>)
    requires NoDup(a) && NoDup(b)
    requires forall i :: 0 <= i < |a| ==> a[i] in s
    requires SameValues(a, b)
    requires InFirstOccurrenceOrder(s, a) && InFirstOccurrenceOrder(s, b)
    ensures a == b
    decreases |a|
  {
    if |a| > 0 {
      assert |b| > 0 by {
        assert a[0] in b;
      }
      SameHeads(s, a, b);
      TailsSameValues(a, b);
      TailOrdered(s, a);
      TailOrdered(s, b);
      OrderedByFirstIndexUnique(s, a[1..], b[1..]);
      assert a == [a[0]] + a[1..];
      assert b == [b[0]] + b[1..];
    }
  }

  lemma SameHeads<T>(s: seq<T>, a: seq<T>, b: seq<T>)
    requires |a| > 0 && |b| > 0
    requires forall i :: 0 <= i < |a| ==> a[i] in s
    requires SameValues(a, b)
    requires InFirstOccurrenceOrder(s, a) && InFirstOccurrenceOrder(s, b)
    ensures a[0] == b[0]
  {
    assert b[0] in a;
    assert a[0] in b;
    var i :| 0 <= i < |a| && a[i] == b[0];
    var j :| 0 <= j < |b| && b[j] == a[0];
    assert FirstIndex(s, a[0]) <= FirstIndex(s, a[i]);
    assert FirstIndex(s, b[0]) <= FirstIndex(s, b[j]);
  }

  lemma TailsSameValues<T>(a: seq<T>, b: seq<T>)
    requires |a| > 0 && |b| > 0 && a[0] == b[0]
    requires NoDup(a) && NoDup(b)
    requires SameValues(a, b)
    ensures SameValues(a[1..], b[1..])
  {
    forall k | 0 <= k < |a| - 1
      ensures a[1..][k] in b[1..]
    {
      var x := a[k + 1];
      var l :| 0 <= l < |b| && b[l] == x;
      assert l != 0;
      assert b[1..][l - 1] == x;
    }
    forall k | 0 <= k < |b| - 1
      ensures b[1..][k] in a[1..]
    {
      var x := b[k + 1];
      var l :| 0 <= l < |a| && a[l] == x;
      assert l != 0;
      assert a[1..][l - 1] == x;
    }
  }

  lemma TailOrdered<T>(s: seq<T>, a: seq<T>)
    requires |a| > 0
    requires forall i :: 0 <= i < |a| ==> a[i] in s
    requires InFirstOccurrenceOrder(s, a)
    ensures forall i :: 0 <= i < |a[1..]| ==> a[1..][i] in s
    ensures InFirstOccurrenceOrder(s, a[1..])
  {
    forall i, j | 0 <= i < j < |a[1..]|
      ensures FirstIndex(s, a[1..][i]) < FirstIndex(s, a[1..][j])
    {
      assert a[1..][i] == a[i + 1] && a[1..][j] == a[j + 1];
    }
  }

  /** A sequence without repetitions is left unchanged. */
  lemma DedupOfNoDup<T>(s: seq<T>)
    requires NoDup(s)
    ensures Dedup(s) == s
  {
    forall i, j | 0 <= i < j < |s|
      ensures FirstIndex(s, s[i]) < FirstIndex(s, s[j])
    {
      FirstIndexOfNoDup(s, i);
      FirstIndexOfNoDup(s, j);
    }
    DedupUnique(s, s);
  }

  /** Removing duplicates twice is the same as removing them once. */
  lemma DedupIdempotent<T>(s: seq<T>)
    ensures Dedup(Dedup(s)) == Dedup(s)
  {
    DedupOfNoDup(Dedup(s));
  }

  /** Removing duplicates keeps exactly the values that occur. */
  lemma DedupMembership<T>(s: seq<T>)
    ensures forall x :: x in Dedup(s) <==> x in s
  {
    var d := Dedup(s);
    forall x
      ensures x in d <==> x in s
    {
      if x in d {
        var i :| 0 <= i < |d| && d[i] == x;
      }
      if x in s {
        var i :| 0 <= i < |s| && s[i] == x;
      }
    }
  }

  /** r is s with some elements left out. */
  predicate IsSubsequence<T(==)>(r: seq<T>, s: seq<T>)
    decreases |s|
  {
    if |r| == 0 then true
    else if |s| == 0 then false
    else (r[0] == s[0] && IsSubsequence(r[1..], s[1..])) || IsSubsequence(r, s[1..])
  }

  /** Every value of a subsequence is a value of the whole. */
  lemma {:induction false} SubsequenceValues<T>(r: seq<T>, s: seq<T>)
    requires IsSubsequence(r, s)
    ensures forall i :: 0 <= i < |r| ==> r[i] in s
    decreases |s|
  {
    if |r| > 0 {
      if r[0] == s[0] && IsSubsequence(r[1..], s[1..]) {
        SubsequenceValues(r[1..], s[1..]);
        assert forall i :: 1 <= i < |r| ==> r[i] == r[1..][i - 1];
      } else {
        SubsequenceValues(r, s[1..]);
      }
    }
  }

  /** A subsequence of a sequence in first-occurrence order of t is in that order too. */
  lemma {:induction false} SubsequenceKeepsOrder<T>(t: seq<T>, r: seq<T>, s: seq<T>)
    requires IsSubsequence(r, s)
    requires forall i :: 0 <= i < |s| ==> s[i] in t
    requires InFirstOccurrenceOrder(t, s)
    ensures forall i :: 0 <= i < |r| ==> r[i] in t
    ensures InFirstOccurrenceOrder(t, r)
    decreases |s|
  {
    SubsequenceValues(r, s);
    if |r| > 0 {
      TailOrdered(t, s);
      if r[0] == s[0] && IsSubsequence(r[1..], s[1..]) {
        SubsequenceKeepsOrder(t, r[1..], s[1..]);
        SubsequenceValues(r[1..], s[1..]);
        forall j | 0 <= j < |r[1..]|
          ensures FirstIndex(t, r[0]) < FirstIndex(t, r[1..][j])
        {
          var l :| 0 <= l < |s[1..]| && s[1..][l] == r[1..][j];
          assert s[l + 1] == r[1..][j];
        }
        PrependKeepsOrder(t, r[0], r[1..]);
        assert r == [r[0]] + r[1..];
      } else {
        SubsequenceKeepsOrder(t, r, s[1..]);
      }
    }
  }

  /** A subsequence of a sequence without repetitions has none either. */
  lemma {:induction false} SubsequenceNoDup<T>(r: seq<T>, s: seq<T>)
    requires IsSubsequence(r, s) && NoDup(s)
    ensures NoDup(r)
    decreases |s|
  {
    if |r| > 0 {
      assert NoDup(s[1..]);
      if r[0] == s[0] && IsSubsequence(r[1..], s[1..]) {
        SubsequenceNoDup(r[1..], s[1..]);
        SubsequenceValues(r[1..], s[1..]);
        assert r[0] !in s[1..];
        forall i, j | 0 <= i < j < |r|
          ensures r[i] != r[j]
        {
          assert r[j] == r[1..][j - 1];
          if i > 0 {
            assert r[i] == r[1..][i - 1];
          }
        }
      } else {
        SubsequenceNoDup(r, s[1..]);
      }
    }
  }
}
