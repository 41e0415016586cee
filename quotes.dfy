/** The quote record and the tag search over a loaded list of quotes. */
module Quotes {
  import opened GoStrings

  /** One quotation: its text, its author (possibly empty) and its tags. */
  datatype Quote = Quote(text: string, author: string, tags: seq<string>)

  /** The query as the search compares it: trimmed, then lower-cased. */
  function Key(targetTag: string): string {
    ToLower(TrimSpace(targetTag))
  }

  /** Some tag of `q`, lower-cased but not trimmed, equals `key` exactly. */
  predicate HasTag(q: Quote, key: string) {
    exists j :: 0 <= j < |q.tags| && ToLower(q.tags[j]) == key
  }

  /** The quotes of `qs` that carry the tag `key`, in their original order. */
  function FilterByTag(qs: seq<Quote>, key: string): seq<Quote> {
    if qs == [] then []
    else
      var last := qs[|qs| - 1];
      FilterByTag(qs[..|qs| - 1], key) + (if HasTag(last, key) then [last] else [])
  }

  /** What `SearchByQuoteTag` returns: nothing for a blank query, otherwise
      every quote having a tag equal to the processed query. */
  function Search(qs: seq<Quote>, targetTag: string): seq<Quote> {
    var key := Key(targetTag);
    if key == "" then [] else FilterByTag(qs, key)
  }

  /** `SearchByQuoteTag`: scans the quotes in order and, for each, its tags in
      order, adding the quote on its first matching tag and then moving on. */
  method SearchByQuoteTag(quotes: seq<Quote>, targetTag: string) returns (matchingQuotes: seq<Quote>)
    ensures matchingQuotes == Search(quotes, targetTag)
  {
    matchingQuotes := [];
    var processedTargetTag := ToLower(TrimSpace(targetTag));

    if processedTargetTag == "" {
      return [];
    }

    for i := 0 to |quotes|
      invariant matchingQuotes == FilterByTag(quotes[..i], processedTargetTag)
    {
      var quote := quotes[i];
      assert quotes[..i + 1][..i] == quotes[..i];
      ghost var added := false;
      for j := 0 to |quote.tags|
        invariant !added
        invariant forall k :: 0 <= k < j ==> ToLower(quote.tags[k]) != processedTargetTag
        invariant matchingQuotes == FilterByTag(quotes[..i], processedTargetTag)
      {
        if ToLower(quote.tags[j]) == processedTargetTag {
          matchingQuotes := matchingQuotes + [quote];
          added := true;
          break;
        }
      }
      assert added <==> HasTag(quote, processedTargetTag);
      assert added ==> matchingQuotes == FilterByTag(quotes[..i], processedTargetTag) + [quote];
      assert !added ==> matchingQuotes == FilterByTag(quotes[..i], processedTargetTag);
    }
    assert quotes[..|quotes|] == quotes;
  }

  // ---------------------------------------------------------------------
  // What the search promises
  // ---------------------------------------------------------------------

  /** `a` can be obtained from `b` by deleting elements. */
  predicate IsSubsequence<T(==)>(a: seq<T>, b: seq<T>)
    decreases |b|
  {
    if a == [] then true
    else if b == [] then false
    else if a[|a| - 1] == b[|b| - 1] then IsSubsequence(a[..|a| - 1], b[..|b| - 1])
    else IsSubsequence(a, b[..|b| - 1])
  }

  /** The filter keeps the quotes of a concatenation separately and in order. */
  lemma {:induction false} FilterAppend(a: seq<Quote>, b: seq<Quote>, key: string)
    ensures FilterByTag(a + b, key) == FilterByTag(a, key) + FilterByTag(b, key)
    decreases |b|
  {
    if b == [] {
      assert a + b == a;
    } else {
      var last := b[|b| - 1];
      assert (a + b)[..|a + b| - 1] == a + b[..|b| - 1];
      FilterAppend(a, b[..|b| - 1], key);
    }
  }

  /** The matches are the input with the non-matching quotes deleted: the
      order is kept and nothing is duplicated or invented. */
  lemma {:induction false} FilterIsSubsequence(qs: seq<Quote>, key: string)
    ensures IsSubsequence(FilterByTag(qs, key), qs)
    decreases |qs|
  {
    if qs != [] {
      var init, last := qs[..|qs| - 1], qs[|qs| - 1];
      FilterIsSubsequence(init, key);
      var r := FilterByTag(qs, key);
      if HasTag(last, key) {
        assert r[..|r| - 1] == FilterByTag(init, key);
      } else {
        assert r == FilterByTag(init, key);
        if r != [] {
          FilterCount(init, key, r[|r| - 1]);
          assert r[|r| - 1] in multiset(r);
          assert r[|r| - 1] != last;
        }
      }
    }
  }

  /** Exact multiplicity: a quote occurs in the matches as often as in the
      input when one of its tags matches, and not at all otherwise. In
      particular every input position contributes at most once. */
  lemma {:induction false} FilterCount(qs: seq<Quote>, key: string, q: Quote)
    ensures multiset(FilterByTag(qs, key))[q] == if HasTag(q, key) then multiset(qs)[q] else 0
    decreases |qs|
  {
    if qs != [] {
      var init := qs[..|qs| - 1];
      FilterCount(init, key, q);
      assert qs == init + [qs[|qs| - 1]];
      assert multiset(qs) == multiset(init) + multiset([qs[|qs| - 1]]);
    }
  }

  lemma SearchEmptyKey(qs: seq<Quote>, targetTag: string)
    requires Key(targetTag) == ""
    ensures Search(qs, targetTag) == []
  {
  }

  /** A blank query, whatever its case, finds nothing in any list. */
  lemma SearchBlankQuery(qs: seq<Quote>, targetTag: string)
    requires IsBlank(targetTag)
    ensures Search(qs, targetTag) == []
  {
    TrimSpaceEmptyIffBlank(targetTag);
  }

  /** Membership is exact: a quote is found iff it is in the input, the
      query is not blank, and one of its tags lower-cases to the trimmed,
      lower-cased query. */
  lemma SearchMembership(qs: seq<Quote>, targetTag: string, q: Quote)
    ensures q in Search(qs, targetTag) <==>
      q in qs && !IsBlank(targetTag) &&
      exists j :: 0 <= j < |q.tags| && ToLower(q.tags[j]) == ToLower(TrimSpace(targetTag))
  {
    TrimSpaceEmptyIffBlank(targetTag);
    var key := Key(targetTag);
    FilterCount(qs, key, q);
    assert |ToLower(TrimSpace(targetTag))| == |TrimSpace(targetTag)|;
  }

  /** The result is the input with non-matching quotes deleted, so it is
      never longer than the input and keeps the input's order. */
  lemma SearchIsSubsequence(qs: seq<Quote>, targetTag: string)
    ensures IsSubsequence(Search(qs, targetTag), qs)
    ensures |Search(qs, targetTag)| <= |qs|
  {
    FilterIsSubsequence(qs, Key(targetTag));
    SubsequenceShorter(Search(qs, targetTag), qs);
  }

  lemma {:induction false} SubsequenceShorter<T>(a: seq<T>, b: seq<T>)
    requires IsSubsequence(a, b)
    ensures |a| <= |b|
    decreases |b|
  {
    if a != [] {
      if a[|a| - 1] == b[|b| - 1] {
        SubsequenceShorter(a[..|a| - 1], b[..|b| - 1]);
      } else {
        SubsequenceShorter(a, b[..|b| - 1]);
      }
    }
  }

  /** Searching a list made of two parts gives the matches of the first part
      followed by the matches of the second. */
  lemma SearchAppend(a: seq<Quote>, b: seq<Quote>, targetTag: string)
    ensures Search(a + b, targetTag) == Search(a, targetTag) + Search(b, targetTag)
  {
    if Key(targetTag) == "" {
      SearchEmptyKey(a + b, targetTag);
      SearchEmptyKey(a, targetTag);
      SearchEmptyKey(b, targetTag);
    } else {
      FilterAppend(a, b, Key(targetTag));
    }
  }

  /** The search is insensitive to the case and the surrounding white space
      of the query: searching for the processed query gives the same result. */
  lemma SearchNormalisedQuery(qs: seq<Quote>, targetTag: string)
    ensures Search(qs, targetTag) == Search(qs, ToLower(TrimSpace(targetTag)))
  {
    var t := TrimSpace(targetTag);
    var _ := TrimSpaceShape(targetTag);
    ToLowerKeepsTrimmed(t);
    ToLowerIdempotent(t);
  }
}
