/**
 * `sort_values` on the normalised log, by `person` or by `time`.  Only the
 * outcome is specified (a permutation that is in order); how rows that compare
 * equal are arranged is left open, as pandas' default quicksort is not stable.
 */
module Sorting {
  import opened Transcript
  import Lex

  /** The column a sort is keyed on. */
  datatype Column = ByPerson | ByTime

  /** a may come before b when sorting on column c. */
  predicate Le(c: Column, a: Event, b: Event) {
    match c
    case ByPerson => Lex.LexLe(a.person, b.person)
    case ByTime => a.time <= b.time
  }

  lemma LeTotal(c: Column, a: Event, b: Event)
    ensures Le(c, a, b) || Le(c, b, a)
  {
    if c == ByPerson {
      Lex.LexLeTotal(a.person, b.person);
    }
  }

  lemma LeTransitive(c: Column, a: Event, b: Event, d: Event)
    requires Le(c, a, b) && Le(c, b, d)
    ensures Le(c, a, d)
  {
    if c == ByPerson {
      Lex.LexLeTransitive(a.person, b.person, d.person);
    }
  }

  predicate Sorted(c: Column, s: seq<Event>) {
    forall i, j :: 0 <= i < j < |s| ==> Le(c, s[i], s[j])
  }

  /** Puts x into its place in the sorted sequence s. */
  function Insert(c: Column, x: Event, s: seq<Event>): (r: seq<Event>)
    requires Sorted(c, s)
    ensures Sorted(c, r)
    ensures multiset(r) == multiset(s) + multiset{x}
  {
    if |s| == 0 then [x]
    else if Le(c, x, s[0]) then
      PrependLeast(c, x, s);
      [x] + s
    else
      var rest := Insert(c, x, s[1..]);
      assert s == [s[0]] + s[1..];
      LeTotal(c, x, s[0]);
      PrependHead(c, x, s, rest);
      [s[0]] + rest
  }

  /** A row no greater than the head of a sorted sequence may go in front of it. */
  lemma PrependLeast(c: Column, x: Event, s: seq<Event>)
    requires Sorted(c, s) && |s| > 0 && Le(c, x, s[0])
    ensures Sorted(c, [x] + s)
  {
    forall j | 0 <= j < |s|
      ensures Le(c, x, s[j])
    {
      if j > 0 {
        LeTransitive(c, x, s[0], s[j]);
      }
    }
  }

  /** The head of s stays in front of the rest of s with x inserted into it. */
  lemma PrependHead(c: Column, x: Event, s: seq<Event>, rest: seq<Event>)
    requires Sorted(c, s) && |s| > 0 && Le(c, s[0], x)
    requires Sorted(c, rest) && multiset(rest) == multiset(s[1..]) + multiset{x}
    ensures Sorted(c, [s[0]] + rest)
  {
    forall j | 0 <= j < |rest|
      ensures Le(c, s[0], rest[j])
    {
      assert rest[j] in multiset(rest);
      if rest[j] != x {
        assert rest[j] in multiset(s[1..]);
        var k :| 0 <= k < |s[1..]| && s[1..][k] == rest[j];
        assert s[k + 1] == rest[j];
      }
    }
  }

  /** The rows of s rearranged into order on column c. */
  function Sort(c: Column, s: seq<Event>): (r: seq<Event>)
    ensures Sorted(c, r)
    ensures multiset(r) == multiset(s)
  {
    if |s| == 0 then []
    else
      assert s == [s[0]] + s[1..];
      Insert(c, s[0], Sort(c, s[1..]))
  }

  /** The first row of a sorted sequence is no greater than any of its rows. */
  lemma FirstIsLeast(c: Column, s: seq<Event>, e: Event)
    requires Sorted(c, s) && e in s
    ensures Le(c, s[0], e)
  {
    LeTotal(c, e, e);
  }

  /** The last row of a sorted sequence is no less than any of its rows. */
  lemma LastIsGreatest(c: Column, s: seq<Event>, e: Event)
    requires Sorted(c, s) && e in s
    ensures Le(c, e, s[|s| - 1])
  {
    LeTotal(c, e, e);
  }
}
