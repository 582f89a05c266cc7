/**
 * `keyword_search`: the records of one collection whose rendering, lower-cased,
 * contains the lower-cased keyword, in collection order.
 */
module KeywordSearch {
  import opened Records

  /** `str.lower()` on one character, for ASCII letters only. */
  function LowerChar(c: char): char
  {
    if 'A' <= c <= 'Z' then (c as int - 'A' as int + 'a' as int) as char else c
  }

  function Lower(s: string): string
  {
    seq(|s|, i requires 0 <= i < |s| => LowerChar(s[i]))
  }

  /** Lower-casing twice is lower-casing once. */
  lemma LowerIdempotent(s: string)
    ensures Lower(Lower(s)) == Lower(s)
  {
    assert forall i :: 0 <= i < |s| ==> LowerChar(LowerChar(s[i])) == LowerChar(s[i]);
  }

  /** `needle` occurs in `hay` starting at position `i`. */
  predicate OccursAt(needle: string, hay: string, i: int)
  {
    0 <= i && i + |needle| <= |hay| && hay[i..i + |needle|] == needle
  }

  /** Python's substring test `needle in hay`. */
  predicate Contains(hay: string, needle: string)
  {
    exists i | 0 <= i <= |hay| - |needle| :: OccursAt(needle, hay, i)
  }

  /** The test at the heart of the loop: the keyword, lower-cased, occurs in the lower-cased rendering. */
  predicate Matches(r: Record, keyword: string)
  {
    Contains(Lower(r.text), Lower(keyword))
  }

  /** The records that match, in their order in `records`. */
  function SearchResults(records: seq<Record>, keyword: string): (found: seq<Record>)
    ensures forall r :: r in found ==> r in records && Matches(r, keyword)
  {
    if records == [] then []
    else
      var n := |records| - 1;
      assert records == records[..n] + [records[n]];
      SearchResults(records[..n], keyword) + (if Matches(records[n], keyword) then [records[n]] else [])
  }

  /** The positions of the matching records, in increasing order. */
  function MatchPositions(records: seq<Record>, keyword: string): seq<int>
  {
    if records == [] then []
    else
      var n := |records| - 1;
      MatchPositions(records[..n], keyword) + (if Matches(records[n], keyword) then [n] else [])
  }

  /** The positions are increasing, in range, and exactly those of the matching records. */
  lemma {:induction false} MatchPositionsExact(records: seq<Record>, keyword: string)
    ensures var pos := MatchPositions(records, keyword);
            && (forall k :: 0 <= k < |pos| ==> 0 <= pos[k] < |records|)
            && (forall k, l :: 0 <= k < l < |pos| ==> pos[k] < pos[l])
            && (forall j :: 0 <= j < |records| ==> (j in pos <==> Matches(records[j], keyword)))
  {
    if records != [] {
      var n := |records| - 1;
      var prefix := records[..n];
      MatchPositionsExact(prefix, keyword);
      assert forall j :: 0 <= j < n ==> prefix[j] == records[j];
    }
  }

  lemma {:induction false} SearchAtPositions(records: seq<Record>, keyword: string)
    ensures var found, pos := SearchResults(records, keyword), MatchPositions(records, keyword);
            && |found| == |pos|
            && forall k :: 0 <= k < |pos| ==> 0 <= pos[k] < |records| && found[k] == records[pos[k]]
  {
    if records != [] {
      var n := |records| - 1;
      var prefix := records[..n];
      SearchAtPositions(prefix, keyword);
      var pos := MatchPositions(prefix, keyword);
      assert forall k :: 0 <= k < |pos| ==> prefix[pos[k]] == records[pos[k]];
    }
  }

  /**
   * The search selects exactly the matching positions, in increasing order:
   * the results are the subsequence of `records` made of the matching records.
   */
  lemma {:induction false} SearchIsOrderedSelection(records: seq<Record>, keyword: string)
    ensures var found, pos := SearchResults(records, keyword), MatchPositions(records, keyword);
            && |found| == |pos|
            && (forall k :: 0 <= k < |pos| ==> 0 <= pos[k] < |records| && found[k] == records[pos[k]])
            && (forall k, l :: 0 <= k < l < |pos| ==> pos[k] < pos[l])
            && (forall j :: 0 <= j < |records| ==> (j in pos <==> Matches(records[j], keyword)))
  {
    MatchPositionsExact(records, keyword);
    SearchAtPositions(records, keyword);
  }

  /** A record is found exactly when it is in the collection and matches. */
  lemma {:induction false} SearchMembership(records: seq<Record>, keyword: string, r: Record)
    ensures r in SearchResults(records, keyword) <==> r in records && Matches(r, keyword)
  {
    SearchIsOrderedSelection(records, keyword);
    if r in records && Matches(r, keyword) {
      var j :| 0 <= j < |records| && records[j] == r;
      var pos := MatchPositions(records, keyword);
      var k :| 0 <= k < |pos| && pos[k] == j;
    }
  }

  /** The empty keyword occurs in every rendering, so every record is returned. */
  lemma {:induction false} EmptyKeywordFindsAll(records: seq<Record>)
    ensures SearchResults(records, "") == records
  {
    if records != [] {
      var n := |records| - 1;
      EmptyKeywordFindsAll(records[..n]);
      assert OccursAt(Lower(""), Lower(records[n].text), 0);
      assert records == records[..n] + [records[n]];
    }
  }

  /** The search ignores the case of the keyword's ASCII letters. */
  lemma {:induction false} SearchIgnoresKeywordCase(records: seq<Record>, keyword: string)
    ensures SearchResults(records, Lower(keyword)) == SearchResults(records, keyword)
  {
    LowerIdempotent(keyword);
    if records != [] {
      SearchIgnoresKeywordCase(records[..|records| - 1], keyword);
    }
  }

  /** Searching a concatenation searches each part. */
  lemma {:induction false} SearchAppend(a: seq<Record>, b: seq<Record>, keyword: string)
    ensures SearchResults(a + b, keyword) == SearchResults(a, keyword) + SearchResults(b, keyword)
  {
    if b != [] {
      var n := |b| - 1;
      SearchAppend(a, b[..n], keyword);
      assert (a + b)[..|a + b| - 1] == a + b[..n];
    } else {
      assert a + b == a;
    }
  }

  /** A keyword that no record matches finds nothing. */
  lemma {:induction false} SearchNoMatch(records: seq<Record>, keyword: string)
    requires forall i :: 0 <= i < |records| ==> !Matches(records[i], keyword)
    ensures SearchResults(records, keyword) == []
  {
    if records != [] {
      var n := |records| - 1;
      assert forall i :: 0 <= i < n ==> records[..n][i] == records[i];
      SearchNoMatch(records[..n], keyword);
    }
  }

  /** A keyword that only one record matches finds that record alone. */
  lemma SearchSingleMatch(records: seq<Record>, keyword: string, j: nat)
    requires j < |records| && Matches(records[j], keyword)
    requires forall i :: 0 <= i < |records| && i != j ==> !Matches(records[i], keyword)
    ensures SearchResults(records, keyword) == [records[j]]
  {
    var before, after := records[..j], records[j + 1..];
    NoMatchBefore(records, keyword, j);
    NoMatchAfter(records, keyword, j);
    var x := records[j];
    assert records == before + [x] + after;
    assert SearchResults([x], keyword) == [x] by {
      assert [x][..0] == [];
    }
    SearchAppend(before, [x], keyword);
    SearchAppend(before + [x], after, keyword);
  }

  /*
   * The two slices of `SearchSingleMatch`, each in a lemma of its own so that the
   * facts about one slice do not enter the proof about the other.
   */
  lemma NoMatchBefore(records: seq<Record>, keyword: string, j: nat)
    requires j <= |records|
    requires forall i :: 0 <= i < j ==> !Matches(records[i], keyword)
    ensures SearchResults(records[..j], keyword) == []
  {
    SearchNoMatch(records[..j], keyword);
  }

  lemma NoMatchAfter(records: seq<Record>, keyword: string, j: nat)
    requires j < |records|
    requires forall i :: j < i < |records| ==> !Matches(records[i], keyword)
    ensures SearchResults(records[j + 1..], keyword) == []
  {
    SearchNoMatch(records[j + 1..], keyword);
  }

  /** The loop of `keyword_search` over the loaded records. */
  method Search(records: seq<Record>, keyword: string) returns (results: seq<Record>)
    ensures results == SearchResults(records, keyword)
  {
    results := [];
    var keywordLower := Lower(keyword);
    for i := 0 to |records|
      invariant results == SearchResults(records[..i], keyword)
    {
      var wordToString := records[i].text;
      if Contains(Lower(wordToString), keywordLower) {
        results := results + [records[i]];
      }
      assert records[..i + 1][..i] == records[..i];
    }
    assert records[..|records|] == records;
  }
}
