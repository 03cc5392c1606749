/**
 * The ordering used to pick the root pathway: elements are compared by their
 * RDF identifiers with the semantics of Java's String.compareTo.
 */
module Comparator {
  import opened Biopax

  /**
   * String.compareTo: the difference of the first pair of characters that
   * differ, or else the difference of the lengths.
   */
  function CompareTo(a: string, b: string): (r: int)
    ensures r == 0 <==> a == b
    decreases |a|
  {
    if a == [] || b == [] then |a| - |b|
    else if a[0] != b[0] then a[0] as int - b[0] as int
    else
      assert a == [a[0]] + a[1..] && b == [b[0]] + b[1..];
      CompareTo(a[1..], b[1..])
  }

  /** PathwayComparator.compare: the comparison of the two RDF ids. */
  function Compare(x: Element, y: Element): (r: int)
    ensures r == 0 <==> x.id == y.id
  {
    CompareTo(x.id, y.id)
  }

  /** Lexicographic order, stated independently of CompareTo: `a` is a proper
      prefix of `b`, or the first difference favours `a`. */
  ghost predicate LexLess(a: string, b: string) {
    exists k :: 0 <= k <= |a| && k <= |b| && a[..k] == b[..k] &&
      ((k == |a| && k < |b|) || (k < |a| && k < |b| && a[k] < b[k]))
  }

  lemma {:induction false} CompareToAntisymmetric(a: string, b: string)
    ensures CompareTo(a, b) == -CompareTo(b, a)
    decreases |a|
  {
    if a != [] && b != [] && a[0] == b[0] {
      CompareToAntisymmetric(a[1..], b[1..]);
    }
  }

  lemma {:induction false} CompareToTransitive(a: string, b: string, c: string)
    requires CompareTo(a, b) <= 0 && CompareTo(b, c) <= 0
    ensures CompareTo(a, c) <= 0
    decreases |a|
  {
    if a != [] && b != [] && c != [] && a[0] == b[0] && b[0] == c[0] {
      CompareToTransitive(a[1..], b[1..], c[1..]);
    }
  }

  lemma {:induction false} CompareToPrefix(a: string, b: string)
    requires |a| < |b| && a == b[..|a|]
    ensures CompareTo(a, b) == |a| - |b| < 0
    decreases |a|
  {
    if a != [] {
      assert a[0] == b[0];
      CompareToPrefix(a[1..], b[1..]);
    }
  }

  /** A negative CompareTo is exactly the lexicographic order. */
  lemma {:induction false} CompareToIsLexicographic(a: string, b: string)
    ensures CompareTo(a, b) < 0 <==> LexLess(a, b)
    decreases |a|
  {
    if a == [] || b == [] {
      if CompareTo(a, b) < 0 {
        assert a[..0] == b[..0];
      }
    } else if a[0] != b[0] {
      if CompareTo(a, b) < 0 {
        assert a[..0] == b[..0];
      }
      if LexLess(a, b) {
        var k :| 0 <= k <= |a| && k <= |b| && a[..k] == b[..k] &&
          ((k == |a| && k < |b|) || (k < |a| && k < |b| && a[k] < b[k]));
        if k > 0 {
          assert a[..k][0] == b[..k][0];
        }
      }
    } else {
      CompareToIsLexicographic(a[1..], b[1..]);
      if LexLess(a[1..], b[1..]) {
        var k :| 0 <= k <= |a[1..]| && k <= |b[1..]| && a[1..][..k] == b[1..][..k] &&
          ((k == |a[1..]| && k < |b[1..]|) || (k < |a[1..]| && k < |b[1..]| && a[1..][k] < b[1..][k]));
        assert a[..k + 1] == [a[0]] + a[1..][..k];
        assert b[..k + 1] == [b[0]] + b[1..][..k];
      }
      if LexLess(a, b) {
        var k :| 0 <= k <= |a| && k <= |b| && a[..k] == b[..k] &&
          ((k == |a| && k < |b|) || (k < |a| && k < |b| && a[k] < b[k]));
        if k == 0 {
          assert false;
        }
        assert a[1..][..k - 1] == a[..k][1..];
        assert b[1..][..k - 1] == b[..k][1..];
      }
    }
  }

  /** The comparator orders any two elements one way or the other. */
  lemma CompareTotal(x: Element, y: Element)
    ensures Compare(x, y) <= 0 || Compare(y, x) <= 0
  {
    CompareToAntisymmetric(x.id, y.id);
  }
}
