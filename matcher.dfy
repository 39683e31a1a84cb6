/** filterArray: normalise the term, keep the candidates whose stripped form
    contains it (letter case ignored), and rank the kept candidates so that
    those whose upper-cased text begins with the term come first, each group
    in ascending string order. */
module Matcher {
  import opened Text
  import opened Ranking
  import opened Sorting

  /** The grep condition for the normalised term q: the candidate with every
      character outside `[A-Za-z0-9 ]` removed contains q, letter case ignored. */
  predicate Matches(q: string, value: string): (r: bool)
    ensures r ==> exists k :: OccursAt(q, Strip(value), k)
    ensures (exists k :: OccursAt(q, Strip(value), k)) ==> r
    ensures r ==> |q| <= |value|
    ensures q == [] ==> r
  {
    var s := Strip(value);
    assert q == [] ==> OccursAt(q, s, 0);
    ContainsIgnoringCase(s, q)
  }

  /** `$.grep(list, value => Matches(q, value))`: the matching candidates in
      their original order. */
  function Grep(q: string, list: seq<string>): (r: seq<string>)
    ensures |r| <= |list|
  {
    if list == [] then []
    else (if Matches(q, list[0]) then [list[0]] else []) + Grep(q, list[1..])
  }

  /** Grep keeps every copy of a matching candidate and no copy of another. */
  lemma {:induction false} GrepCount(q: string, list: seq<string>, x: string)
    ensures multiset(Grep(q, list))[x] == if Matches(q, x) then multiset(list)[x] else 0
  {
    if list != [] {
      GrepCount(q, list[1..], x);
      assert list == [list[0]] + list[1..];
      var head := if Matches(q, list[0]) then [list[0]] else [];
      assert multiset(Grep(q, list)) == multiset(head) + multiset(Grep(q, list[1..]));
    }
  }

  /** filterArray(list, term). */
  function FilterArray(list: seq<string>, term: string): (r: seq<string>)
    ensures |r| <= |list|
  {
    var q := Normalize(term);
    Sort(Comparator(q), Grep(q, list))
  }

  /** The result holds each matching candidate exactly as often as the input
      does, and nothing else: a permutation of the grep result. */
  lemma FilterArrayCount(list: seq<string>, term: string, x: string)
    ensures multiset(FilterArray(list, term))[x]
         == if Matches(Normalize(term), x) then multiset(list)[x] else 0
  {
    var q := Normalize(term);
    GrepCount(q, list, x);
    SortPermutation(Comparator(q), Grep(q, list));
  }

  /** A candidate is in the result iff it is in the input and matches. */
  lemma FilterArrayMembership(list: seq<string>, term: string, x: string)
    ensures x in FilterArray(list, term) <==> x in list && Matches(Normalize(term), x)
  {
    FilterArrayCount(list, term, x);
    assert x in FilterArray(list, term) <==> x in multiset(FilterArray(list, term));
    assert x in list <==> x in multiset(list);
  }

  /** The result is sorted by the comparator of filterArray. */
  lemma FilterArraySorted(list: seq<string>, term: string)
    ensures SortedBy(Comparator(Normalize(term)), FilterArray(list, term))
  {
    var q := Normalize(term);
    CompareIsTotalOrder(q);
    SortSorted(Comparator(q), Grep(q, list));
  }

  /** Every result that begins with the term comes before every result that
      does not. */
  lemma FilterArrayBeginsFirst(list: seq<string>, term: string, i: nat, j: nat)
    requires i < j < |FilterArray(list, term)|
    requires Begins(Normalize(term), FilterArray(list, term)[j])
    ensures Begins(Normalize(term), FilterArray(list, term)[i])
  {
    FilterArraySorted(list, term);
  }

  /** Within one begins-group the results are in ascending string order. */
  lemma FilterArrayGroupOrder(list: seq<string>, term: string, i: nat, j: nat)
    requires i < j < |FilterArray(list, term)|
    requires Begins(Normalize(term), FilterArray(list, term)[i])
          == Begins(Normalize(term), FilterArray(list, term)[j])
    ensures var r := FilterArray(list, term); r[i] == r[j] || LexLess(r[i], r[j])
  {
    FilterArraySorted(list, term);
  }

  /** Any sequence sorted by the comparator that holds the matching candidates
      with their multiplicities is the result: the order does not depend on
      the sorting algorithm of the JavaScript engine. */
  lemma FilterArrayUnique(list: seq<string>, term: string, t: seq<string>)
    requires SortedBy(Comparator(Normalize(term)), t)
    requires forall x :: multiset(t)[x] == if Matches(Normalize(term), x) then multiset(list)[x] else 0
    ensures t == FilterArray(list, term)
  {
    var q := Normalize(term);
    var r := FilterArray(list, term);
    forall x ensures multiset(t)[x] == multiset(r)[x] {
      FilterArrayCount(list, term, x);
    }
    assert multiset(t) == multiset(r);
    FilterArraySorted(list, term);
    CompareIsTotalOrder(q);
    SortedUnique(Comparator(q), t, r);
  }

  /** The letter case of the query does not change the result. */
  lemma FilterArrayIgnoresCase(list: seq<string>, term1: string, term2: string)
    requires SameIgnoringCase(term1, term2)
    ensures FilterArray(list, term1) == FilterArray(list, term2)
  {
    NormalizeIgnoresCase(term1, term2);
  }

  /** A query that normalises to the empty string keeps every candidate and
      ranks them in plain ascending string order. */
  lemma FilterArrayEmptyTerm(list: seq<string>, term: string)
    requires Normalize(term) == []
    ensures multiset(FilterArray(list, term)) == multiset(list)
    ensures var r := FilterArray(list, term);
      forall i, j :: 0 <= i < j < |r| ==> r[i] == r[j] || LexLess(r[i], r[j])
  {
    var r := FilterArray(list, term);
    forall x ensures multiset(r)[x] == multiset(list)[x] {
      FilterArrayCount(list, term, x);
      assert OccursAt([], Strip(x), 0);
    }
    FilterArraySorted(list, term);
  }

  /** The result is empty iff no candidate matches. */
  lemma FilterArrayEmpty(list: seq<string>, term: string)
    ensures FilterArray(list, term) == [] <==> forall x :: x in list ==> !Matches(Normalize(term), x)
  {
    var r := FilterArray(list, term);
    if r != [] {
      FilterArrayMembership(list, term, r[0]);
    }
    forall x | x in list && Matches(Normalize(term), x) ensures r != [] {
      FilterArrayMembership(list, term, x);
    }
  }

  /** The first |q| characters of a candidate that begins with q are kept
      characters, when q holds only capitals, digits and spaces. */
  lemma BeginsHeadKept(q: string, a: string)
    requires forall i :: 0 <= i < |q| ==> IsKept(q[i])
    requires Begins(q, a)
    ensures |q| <= |a|
    ensures forall i :: 0 <= i < |q| ==> IsKept(a[i])
    ensures Upper(a[..|q|]) == q
  {
    var n := |q|;
    assert Upper(a)[..n] == q;
    forall i | 0 <= i < n ensures IsKept(a[i]) {
      assert UpperChar(a[i]) == q[i];
    }
  }

  /** For a normalised term, beginning with it implies matching it, so every
      candidate of the first group passes the filter. The converse fails,
      because the begins test looks at the unstripped text (see
      DottedNameDoesNotBegin). */
  lemma BeginsImpliesMatches(term: string, a: string)
    requires Begins(Normalize(term), a)
    ensures Matches(Normalize(term), a)
  {
    var q := Normalize(term);
    var n := |q|;
    BeginsHeadKept(q, a);
    var head, rest := a[..n], a[n..];
    StripOfKept(head);
    assert a == head + rest;
    StripConcat(head, rest);
    var s := Strip(a);
    assert s[..n] == head;
    UpperOfNoLower(q);
    assert OccursAt(q, s, 0);
  }

  /** The candidate "A.B" matches the query "A.B" (both strip to "AB") but
      does not begin with it, because the begins test compares the
      unstripped "A." with "AB". */
  lemma DottedNameDoesNotBegin()
    ensures Normalize("A.B") == "AB"
    ensures Matches("AB", "A.B")
    ensures !Begins("AB", "A.B")
  {
    assert Strip("A.B") == "AB";
    assert OccursAt("AB", "AB", 0);
  }

  /** The query "A-B" normalises to "AB", but the candidate "A B" keeps its
      space when stripped, so it does not match: a query that joins words
      with punctuation misses a candidate that separates them by a space. */
  lemma HyphenDoesNotMatchSpace()
    ensures Normalize("A-B") == "AB"
    ensures !Matches("AB", "A B")
    ensures FilterArray(["A B"], "A-B") == []
  {
    assert Strip("A-B") == "AB";
    assert Strip("A B") == "A B";
    assert !OccursAt("AB", "A B", 0) && !OccursAt("AB", "A B", 1);
    FilterArrayEmpty(["A B"], "A-B");
  }
}
