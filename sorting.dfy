/**
 * The sort of the candidate root pathways (Collections.sort driven by the
 * pathway comparator). Collections.sort is a library routine; its result is
 * modelled by a stable insertion sort, proved to yield an ordered permutation.
 */
module Sorting {
  import opened Biopax
  import opened Comparator

  /** Every earlier element compares at most equal to every later one. */
  ghost predicate Sorted(s: seq<Element>) {
    forall i, j :: 0 <= i < j < |s| ==> Compare(s[i], s[j]) <= 0
  }

  /** Places `x` after every element that does not compare greater than it. */
  function Insert(x: Element, s: seq<Element>): (r: seq<Element>)
    ensures multiset(r) == multiset(s) + multiset{x}
  {
    if s == [] then [x]
    else if Compare(x, s[0]) < 0 then [x] + s
    else
      assert s == [s[0]] + s[1..];
      [s[0]] + Insert(x, s[1..])
  }

  /** An ordered sequence stays ordered under a head that is at most its elements. */
  lemma ConsSorted(h: Element, t: seq<Element>)
    requires Sorted(t)
    requires forall j :: 0 <= j < |t| ==> Compare(h, t[j]) <= 0
    ensures Sorted([h] + t)
  {
    var r := [h] + t;
    forall i, j | 0 <= i < j < |r| ensures Compare(r[i], r[j]) <= 0 {
      if i == 0 {
        assert r[j] == t[j - 1];
      } else {
        assert r[i] == t[i - 1] && r[j] == t[j - 1];
      }
    }
  }

  /** Inserting into an ordered sequence keeps it ordered. */
  lemma {:induction false} InsertSorted(x: Element, s: seq<Element>)
    requires Sorted(s)
    ensures Sorted(Insert(x, s))
  {
    if s == [] {
    } else if Compare(x, s[0]) < 0 {
      forall j | 0 <= j < |s| ensures Compare(x, s[j]) <= 0 {
        CompareToTransitive(x.id, s[0].id, s[j].id);
      }
      ConsSorted(x, s);
    } else {
      var rest := Insert(x, s[1..]);
      InsertSorted(x, s[1..]);
      HeadBelowInsert(x, s);
      ConsSorted(s[0], rest);
    }
  }

  /** When `x` is not placed first, the old head stays at most every later element. */
  lemma HeadBelowInsert(x: Element, s: seq<Element>)
    requires Sorted(s) && s != [] && Compare(x, s[0]) >= 0
    ensures forall j :: 0 <= j < |Insert(x, s[1..])| ==> Compare(s[0], Insert(x, s[1..])[j]) <= 0
  {
    var rest := Insert(x, s[1..]);
    CompareToAntisymmetric(x.id, s[0].id);
    forall j | 0 <= j < |rest| ensures Compare(s[0], rest[j]) <= 0 {
      assert rest[j] in multiset(rest);
      if rest[j] != x {
        assert rest[j] in multiset(s[1..]);
        var k :| 0 <= k < |s[1..]| && s[1..][k] == rest[j];
        assert s[k + 1] == rest[j];
      }
    }
  }

  /** The sorted arrangement of `s`, inserting its elements in order. */
  function Sort(s: seq<Element>): (r: seq<Element>)
    ensures Sorted(r)
    ensures multiset(r) == multiset(s)
  {
    if s == [] then []
    else
      var sorted := Sort(s[..|s| - 1]);
      InsertSorted(s[|s| - 1], sorted);
      assert s == s[..|s| - 1] + [s[|s| - 1]];
      Insert(s[|s| - 1], sorted)
  }

  /** The head of a sorted sequence has the least RDF id of all its elements. */
  lemma {:induction false} SortedHeadIsLeast(s: seq<Element>, e: Element)
    requires Sorted(s) && e in s
    ensures Compare(s[0], e) <= 0
  {
    var k :| 0 <= k < |s| && s[k] == e;
    if k == 0 {
      assert Compare(s[0], s[0]) == 0;
    }
  }
}
