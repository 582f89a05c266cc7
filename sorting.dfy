/**
 * `sorted(posts, key=lambda p: p['id'])`: Python's sort is stable, so the
 * result is the input ordered by ascending `id` with ties in input order.
 * The model computes it by insertion sort; the three properties proved here
 * (ordered, a permutation, ties kept in input order) are what any stable sort
 * returns.
 */
module Sorting {
  import opened Records

  ghost predicate SortedById(s: seq<Record>)
  {
    forall i, j :: 0 <= i < j < |s| ==> s[i].id <= s[j].id
  }

  /** Puts `x` before the first record whose id is not smaller than its own. */
  function InsertById(x: Record, s: seq<Record>): (r: seq<Record>)
    ensures multiset(r) == multiset(s) + multiset{x}
  {
    if s == [] || x.id <= s[0].id then [x] + s
    else
      assert s == [s[0]] + s[1..];
      [s[0]] + InsertById(x, s[1..])
  }

  /** Every record of the insertion is `x` or a record of `s`. */
  lemma InsertedFrom(x: Record, s: seq<Record>, i: nat)
    requires i < |InsertById(x, s)|
    ensures InsertById(x, s)[i] == x || InsertById(x, s)[i] in s
  {
    var r := InsertById(x, s);
    assert r[i] in multiset(s) + multiset{x};
  }

  lemma {:induction false} InsertSorted(x: Record, s: seq<Record>)
    requires SortedById(s)
    ensures SortedById(InsertById(x, s))
  {
    if s != [] && s[0].id < x.id {
      var rest := InsertById(x, s[1..]);
      InsertSorted(x, s[1..]);
      forall i | 0 <= i < |rest| ensures s[0].id <= rest[i].id {
        InsertedFrom(x, s[1..], i);
      }
      assert InsertById(x, s) == [s[0]] + rest;
    }
  }

  function SortById(s: seq<Record>): (r: seq<Record>)
    ensures SortedById(r)
    ensures multiset(r) == multiset(s)
  {
    if s == [] then []
    else
      assert s == [s[0]] + s[1..];
      InsertSorted(s[0], SortById(s[1..]));
      InsertById(s[0], SortById(s[1..]))
  }

  /** The records of `s` whose id is `k`, in order. */
  function WithId(s: seq<Record>, k: int): seq<Record>
  {
    if s == [] then []
    else (if s[0].id == k then [s[0]] else []) + WithId(s[1..], k)
  }

  lemma {:induction false} InsertKeepsTies(x: Record, s: seq<Record>, k: int)
    ensures WithId(InsertById(x, s), k) == (if x.id == k then [x] else []) + WithId(s, k)
  {
    if s == [] || x.id <= s[0].id {
      assert ([x] + s)[1..] == s;
    } else {
      var rest := InsertById(x, s[1..]);
      InsertKeepsTies(x, s[1..], k);
      assert ([s[0]] + rest)[1..] == rest;
      assert WithId([s[0]] + rest, k) == (if s[0].id == k then [s[0]] else []) + WithId(rest, k);
    }
  }

  /** Stability: the records sharing an id appear in the output in input order. */
  lemma {:induction false} SortIsStable(s: seq<Record>, k: int)
    ensures WithId(SortById(s), k) == WithId(s, k)
  {
    if s != [] {
      SortIsStable(s[1..], k);
      InsertKeepsTies(s[0], SortById(s[1..]), k);
    }
  }
}
