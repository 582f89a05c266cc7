/** Facts about sequences shared by the identity map and the groupings. */
module Sequences {

  predicate NoDuplicates<T(==)>(s: seq<T>)
  {
    forall i, j :: 0 <= i < j < |s| ==> s[i] != s[j]
  }

  /** Appending an element not yet present keeps the elements distinct. */
  lemma AppendFresh<T>(s: seq<T>, x: T)
    requires NoDuplicates(s) && x !in s
    ensures NoDuplicates(s + [x])
  {
    var t := s + [x];
    forall i, j | 0 <= i < j < |t| ensures t[i] != t[j] {
      if j < |s| {
        assert t[i] == s[i] && t[j] == s[j];
      } else {
        assert t[i] == s[i] && s[i] in s;
      }
    }
  }

  /** The elements of `s`, each at the position of its first occurrence. */
  function Distinct<T(==)>(s: seq<T>): (d: seq<T>)
    ensures NoDuplicates(d)
  {
    if s == [] then []
    else
      var n := |s| - 1;
      var d := Distinct(s[..n]);
      if s[n] in d then d else d + [s[n]]
  }

  /** Deduplication keeps every element and adds none. */
  lemma {:induction false} DistinctMembers<T>(s: seq<T>)
    ensures forall x :: x in Distinct(s) <==> x in s
  {
    if s != [] {
      var n := |s| - 1;
      assert s == s[..n] + [s[n]];
      DistinctMembers(s[..n]);
    }
  }

  function ToSet<T>(s: seq<T>): set<T>
  {
    set x | x in s
  }

  /** A sequence without duplicates has as many elements as its set. */
  lemma {:induction false} NoDuplicatesCardinality<T>(s: seq<T>)
    requires NoDuplicates(s)
    ensures |ToSet(s)| == |s|
  {
    if s != [] {
      var n := |s| - 1;
      assert s == s[..n] + [s[n]];
      NoDuplicatesCardinality(s[..n]);
      assert ToSet(s) == ToSet(s[..n]) + {s[n]};
      assert s[n] !in ToSet(s[..n]);
    }
  }

  /** Deduplication keeps exactly one copy of every distinct element. */
  lemma DistinctCardinality<T>(s: seq<T>)
    ensures |Distinct(s)| == |ToSet(s)|
  {
    var d := Distinct(s);
    DistinctMembers(s);
    NoDuplicatesCardinality(d);
    assert ToSet(d) == ToSet(s) by {
      forall x | x in ToSet(s) ensures x in ToSet(d) {
        var i :| 0 <= i < |s| && s[i] == x;
      }
      forall x | x in ToSet(d) ensures x in ToSet(s) {
        var i :| 0 <= i < |d| && d[i] == x;
      }
    }
  }
}
