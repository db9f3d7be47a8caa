/** Facts about finite sequences that several of the models share. */
module Sequences {

  datatype Option<+T> = None | Some(value: T)

  ghost function Elems<T>(s: seq<T>): set<T> {
    set x | x in s
  }

  lemma ElemsAppend<T>(s: seq<T>, x: T)
    ensures Elems(s + [x]) == Elems(s) + {x}
  {
    assert forall y :: y in Elems(s + [x]) <==> y in Elems(s) + {x};
  }

  ghost predicate Distinct<T>(s: seq<T>) {
    forall i, j :: 0 <= i < j < |s| ==> s[i] != s[j]
  }

  /** The position of the first `x` in `s`, or the length of `s`. */
  function Find<T(==)>(s: seq<T>, x: T): (i: nat)
    ensures i <= |s|
    ensures i < |s| ==> s[i] == x
    ensures i < |s| <==> x in s
    ensures forall j :: 0 <= j < i ==> s[j] != x
  {
    if s == [] || s[0] == x then 0 else 1 + Find(s[1..], x)
  }

  lemma FindUnique<T>(s: seq<T>, x: T, i: nat)
    requires i <= |s| && (i < |s| ==> s[i] == x) && x !in s[..i]
    ensures Find(s, x) == i
  {
    assert forall j :: 0 <= j < i ==> s[j] == s[..i][j];
  }

  /** The values of `s` in the order in which they first appear. */
  function FirstOccurrences<T(==)>(s: seq<T>): (r: seq<T>)
    ensures Distinct(r)
    ensures Elems(r) == Elems(s)
  {
    if s == [] then [] else
      var r := FirstOccurrences(s[..|s| - 1]);
      var x := s[|s| - 1];
      assert s == s[..|s| - 1] + [x];
      assert x in r <==> x in Elems(r);
      if x in r then r else
        assert Elems(r + [x]) == Elems(r) + {x};
        r + [x]
  }

  /** Where a value that appears for the first time ends up: behind the different values before it. */
  lemma {:induction false} FirstOccurrence<T>(s: seq<T>, i: nat)
    requires i < |s| && s[i] !in s[..i]
    ensures |Elems(s[..i])| < |FirstOccurrences(s)| && FirstOccurrences(s)[|Elems(s[..i])|] == s[i]
  {
    var n := |s| - 1;
    if i == n {
      DistinctCardinality(FirstOccurrences(s[..n]));
      assert s[n] in FirstOccurrences(s[..n]) <==> s[n] in Elems(s[..n]);
    } else {
      assert s[..n][..i] == s[..i];
      FirstOccurrence(s[..n], i);
    }
  }

  lemma {:induction false} DistinctCardinality<T>(s: seq<T>)
    requires Distinct(s)
    ensures |Elems(s)| == |s|
  {
    if s == [] {
    } else {
      var front, x := s[..|s| - 1], s[|s| - 1];
      DistinctCardinality(front);
      assert s == front + [x];
      assert Elems(s) == Elems(front) + {x};
    }
  }

  lemma {:induction false} SubsetCardinality<T>(a: set<T>, b: set<T>)
    requires a <= b
    ensures |a| <= |b|
  {
    assert b == a + (b - a);
  }
}
