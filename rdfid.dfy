/**
 * Extraction of the local tail from an RDF identifier
 * ("http://www.reactome.org/biopax/109869#Pathway1" gives "Pathway1"),
 * including Java's String.split semantics for a one-character separator:
 * the string is cut at every separator and trailing empty fields are dropped;
 * a string without the separator splits into itself.
 */
module RdfId {

  /** Every field between separators, empty ones included. Never empty. */
  function Fields(s: string, sep: char): (r: seq<string>)
    ensures |r| >= 1
    ensures forall i :: 0 <= i < |r| ==> sep !in r[i]
  {
    if s == [] then [[]]
    else
      var rest := Fields(s[1..], sep);
      if s[0] == sep then [[]] + rest
      else [[s[0]] + rest[0]] + rest[1..]
  }

  /** Glues fields back together with the separator between them. */
  function Join(parts: seq<string>, sep: char): string
    requires |parts| >= 1
  {
    if |parts| == 1 then parts[0] else parts[0] + [sep] + Join(parts[1..], sep)
  }

  /** Drops empty fields at the end. */
  function DropTrailingEmpty(parts: seq<string>): (r: seq<string>)
    ensures |r| <= |parts| && r == parts[..|r|]
    ensures r == [] || r[|r| - 1] != []
    ensures forall i :: |r| <= i < |parts| ==> parts[i] == []
  {
    if parts == [] then []
    else if parts[|parts| - 1] == [] then DropTrailingEmpty(parts[..|parts| - 1])
    else parts
  }

  /** String.split(String.valueOf(sep)) in Java. */
  function JavaSplit(s: string, sep: char): seq<string> {
    if sep !in s then [s] else DropTrailingEmpty(Fields(s, sep))
  }

  /** `k` separator characters. */
  function Repeat(c: char, k: nat): (r: string)
    ensures |r| == k && forall i :: 0 <= i < k ==> r[i] == c
  {
    if k == 0 then [] else [c] + Repeat(c, k - 1)
  }

  /** PathSearch.parseRDFId: the second field when there are exactly two, else "Unknown". */
  function ParseRDFId(id: string): (r: string)
    ensures '#' !in r
  {
    var parts := JavaSplit(id, '#');
    if |parts| == 2 then parts[1] else "Unknown"
  }

  /** Splitting and joining again gives back the string. */
  lemma {:induction false} JoinFields(s: string, sep: char)
    ensures Join(Fields(s, sep), sep) == s
  {
    if s != [] {
      JoinFields(s[1..], sep);
      var rest := Fields(s[1..], sep);
      if s[0] != sep {
        if |rest| == 1 {
        } else {
          assert ([[s[0]] + rest[0]] + rest[1..])[1..] == rest[1..];
        }
      } else {
        assert ([[]] + rest)[1..] == rest;
      }
      assert s == [s[0]] + s[1..];
    }
  }

  /** A separator-free prefix becomes the first field. */
  lemma {:induction false} FieldsCons(a: string, sep: char, t: string)
    requires sep !in a
    ensures Fields(a + [sep] + t, sep) == [a] + Fields(t, sep)
  {
    if a == [] {
      assert [] + [sep] + t == [sep] + t;
      assert ([sep] + t)[1..] == t;
    } else {
      assert (a + [sep] + t)[1..] == a[1..] + [sep] + t;
      FieldsCons(a[1..], sep, t);
      assert [a[0]] + a[1..] == a;
    }
  }

  /** A separator-free string is a single field. */
  lemma {:induction false} FieldsSingle(a: string, sep: char)
    requires sep !in a
    ensures Fields(a, sep) == [a]
  {
    if a != [] {
      FieldsSingle(a[1..], sep);
      assert [a[0]] + a[1..] == a;
    }
  }

  /** A run of `k` separators is `k + 1` empty fields. */
  lemma {:induction false} FieldsRepeat(sep: char, k: nat)
    ensures Fields(Repeat(sep, k), sep) == seq(k + 1, _ => [])
  {
    if k > 0 {
      FieldsRepeat(sep, k - 1);
      assert Repeat(sep, k)[1..] == Repeat(sep, k - 1);
    }
  }

  /** The usual form: a label after exactly one '#' gives that label, even when
      further '#' characters trail it (Java drops the empty fields they make). */
  lemma ParseRDFIdLabel(prefix: string, tail: string, k: nat)
    requires '#' !in prefix && '#' !in tail && tail != []
    ensures ParseRDFId(prefix + "#" + tail + Repeat('#', k)) == tail
  {
    var id := prefix + "#" + tail + Repeat('#', k);
    assert id[|prefix|] == '#';
    FieldsOfLabel(prefix, tail, k);
    DropEmpties([prefix, tail], k);
  }

  lemma FieldsOfLabel(prefix: string, tail: string, k: nat)
    requires '#' !in prefix && '#' !in tail
    ensures Fields(prefix + "#" + tail + Repeat('#', k), '#') == [prefix, tail] + seq(k, _ => [])
  {
    var id := prefix + "#" + tail + Repeat('#', k);
    assert id == prefix + ['#'] + (tail + Repeat('#', k));
    FieldsCons(prefix, '#', tail + Repeat('#', k));
    if k == 0 {
      assert tail + Repeat('#', k) == tail;
      FieldsSingle(tail, '#');
    } else {
      assert tail + Repeat('#', k) == tail + ['#'] + Repeat('#', k - 1);
      FieldsCons(tail, '#', Repeat('#', k - 1));
      FieldsRepeat('#', k - 1);
    }
  }

  lemma {:induction false} DropEmpties(xs: seq<string>, k: nat)
    requires xs != [] && xs[|xs| - 1] != []
    ensures DropTrailingEmpty(xs + seq(k, _ => [])) == xs
    decreases k
  {
    if k > 0 {
      var ys := xs + seq(k, _ => []);
      assert ys[..|ys| - 1] == xs + seq(k - 1, _ => []);
      DropEmpties(xs, k - 1);
    } else {
      assert xs + seq(k, _ => []) == xs;
    }
  }

  /** Conversely, a label is returned only from an id of that form. */
  lemma ParseRDFIdOnlyLabel(id: string)
    requires |JavaSplit(id, '#')| == 2
    ensures var parts := JavaSplit(id, '#');
      exists k: nat :: '#' !in parts[0] && '#' !in parts[1] && parts[1] != [] &&
        id == parts[0] + "#" + parts[1] + Repeat('#', k)
  {
    var all := Fields(id, '#');
    var parts := JavaSplit(id, '#');
    assert '#' in id;
    assert parts == all[..2];
    var k := |all| - 2;
    assert all == parts + seq(k, _ => []) by {
      forall i | 0 <= i < |all| ensures all[i] == (parts + seq(k, _ => []))[i] {}
    }
    JoinFields(id, '#');
    JoinEmpties(parts, k);
    assert parts[1] == parts[|parts| - 1];
  }

  /** Joining two fields followed by `k` empty ones. */
  lemma JoinEmpties(parts: seq<string>, k: nat)
    requires |parts| == 2
    ensures Join(parts + seq(k, _ => []), '#') == parts[0] + "#" + parts[1] + Repeat('#', k)
  {
    var all := parts + seq(k, _ => []);
    assert all[1..] == [parts[1]] + seq(k, _ => []);
    JoinTail(parts[1], k);
  }

  lemma {:induction false} JoinTail(last: string, k: nat)
    decreases k
    ensures Join([last] + seq(k, _ => []), '#') == last + Repeat('#', k)
  {
    if k > 0 {
      var xs := [last] + seq(k, _ => []);
      assert xs[1..] == [[]] + seq(k - 1, _ => []);
      JoinTail([], k - 1);
      assert Repeat('#', k) == ['#'] + Repeat('#', k - 1);
    }
  }

  /** A trailing '#' with nothing after it gives "Unknown". */
  lemma ParseRDFIdTrailingHash(prefix: string)
    requires '#' !in prefix
    ensures ParseRDFId(prefix + "#") == "Unknown"
  {
    assert prefix + "#" == prefix + ['#'] + [];
    FieldsCons(prefix, '#', []);
    assert (prefix + "#")[|prefix|] == '#';
    assert Fields(prefix + "#", '#') == [prefix, []];
  }

  /** Three non-trailing fields give "Unknown". */
  lemma ParseRDFIdThreeFields(a: string, b: string, c: string)
    requires '#' !in a && '#' !in b && '#' !in c && c != []
    ensures ParseRDFId(a + "#" + b + "#" + c) == "Unknown"
  {
    var id := a + "#" + b + "#" + c;
    assert id == a + ['#'] + (b + ['#'] + c);
    assert id[|a|] == '#';
    FieldsCons(a, '#', b + ['#'] + c);
    FieldsCons(b, '#', c);
    FieldsSingle(c, '#');
    assert Fields(id, '#') == [a, b, c];
  }
}
