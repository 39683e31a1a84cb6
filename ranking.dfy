/** The ordering filterArray puts on its matches: JavaScript's string `<`,
    the "begins with the term" test, the two-key comparator built from them,
    and the proof that this comparator is a total order. */
module Ranking {
  import opened Text
  import Sorting

  /** JavaScript's `a < b` on strings: the first differing character decides,
      and a proper prefix is smaller than the longer string. (Dafny's own `<`
      on sequences is the proper-prefix test only.) */
  predicate LexLess(a: string, b: string)
    ensures a < b ==> LexLess(a, b)
    ensures LexLess(a, b) ==> a != b
    decreases |a|
  {
    if a == [] then b != []
    else if b == [] then false
    else if a[0] != b[0] then a[0] < b[0]
    else LexLess(a[1..], b[1..])
  }

  /** The definition of string `<` written out: either a is a proper prefix of
      b, or at the first index where they differ a has the smaller character. */
  ghost predicate LexLessByIndex(a: string, b: string) {
    (a < b) ||
    exists k :: 0 <= k < |a| && k < |b| && a[..k] == b[..k] && a[k] < b[k]
  }

  /** Equal prefixes of positive length start with the same character. */
  lemma PrefixHeads(a: string, b: string)
    requires a != [] && b != []
    ensures forall k :: 0 < k <= |a| && k <= |b| && a[..k] == b[..k] ==> a[0] == b[0]
  {
    forall k | 0 < k <= |a| && k <= |b| && a[..k] == b[..k] ensures a[0] == b[0] {
      assert a[..k][0] == a[0] && b[..k][0] == b[0];
    }
  }

  lemma {:induction false} LexLessToIndex(a: string, b: string)
    requires LexLess(a, b)
    ensures LexLessByIndex(a, b)
  {
    if a != [] && b != [] {
      if a[0] != b[0] {
        assert a[..0] == b[..0];
      } else {
        var a', b' := a[1..], b[1..];
        LexLessToIndex(a', b');
        if a' < b' {
          assert a == [a[0]] + a' && b == [b[0]] + b';
        } else {
          var k :| 0 <= k < |a'| && k < |b'| && a'[..k] == b'[..k] && a'[k] < b'[k];
          assert a[..k + 1] == [a[0]] + a'[..k];
          assert b[..k + 1] == [b[0]] + b'[..k];
          assert a[k + 1] < b[k + 1];
        }
      }
    }
  }

  lemma {:induction false} IndexToLexLess(a: string, b: string)
    requires LexLessByIndex(a, b)
    ensures LexLess(a, b)
  {
    if a != [] && b != [] {
      PrefixHeads(a, b);
      if a[0] == b[0] {
        var a', b' := a[1..], b[1..];
        if a < b {
          assert a' < b';
        } else {
          var k :| 0 <= k < |a| && k < |b| && a[..k] == b[..k] && a[k] < b[k];
          assert a'[..k - 1] == a[1..k] && b'[..k - 1] == b[1..k];
          assert a[1..k] == a[..k][1..] && b[1..k] == b[..k][1..];
          assert a'[k - 1] < b'[k - 1];
        }
        IndexToLexLess(a', b');
      }
    }
  }

  lemma LexLessMeaning(a: string, b: string)
    ensures LexLess(a, b) <==> LexLessByIndex(a, b)
  {
    if LexLess(a, b) {
      LexLessToIndex(a, b);
    }
    if LexLessByIndex(a, b) {
      IndexToLexLess(a, b);
    }
  }

  lemma {:induction false} LexLessIrreflexive(a: string)
    ensures !LexLess(a, a)
  {
    if a != [] {
      LexLessIrreflexive(a[1..]);
    }
  }

  lemma {:induction false} LexLessTransitive(a: string, b: string, c: string)
    requires LexLess(a, b) && LexLess(b, c)
    ensures LexLess(a, c)
  {
    if a != [] && b != [] && c != [] && a[0] == b[0] && b[0] == c[0] {
      LexLessTransitive(a[1..], b[1..], c[1..]);
    }
  }

  /** Of two different strings exactly one is smaller. */
  lemma {:induction false} LexLessTrichotomy(a: string, b: string)
    ensures a == b || LexLess(a, b) || LexLess(b, a)
    ensures !(LexLess(a, b) && LexLess(b, a))
  {
    if a != [] && b != [] && a[0] == b[0] {
      LexLessTrichotomy(a[1..], b[1..]);
      if a[1..] == b[1..] {
        assert a == [a[0]] + a[1..] && b == [b[0]] + b[1..];
      }
    }
  }

  /** JavaScript's `s.substr(0, n)`: the first n characters, or all of s when
      it is shorter. */
  function Take(s: string, n: nat): (r: string)
    ensures |r| == if n <= |s| then n else |s|
    ensures r <= s
  {
    if n <= |s| then s[..n] else s
  }

  /** `a.toUpperCase().substr(0, term.length) == term`: the prefix test on
      the upper-cased candidate. */
  predicate Begins(q: string, a: string)
    ensures Begins(q, a) <==> q <= Upper(a)
  {
    Take(Upper(a), |q|) == q
  }

  /** The sort comparator of filterArray, with its -1 / 0 / 1 results. */
  function Compare(q: string, a: string, b: string): (r: int)
    ensures r == -1 || r == 0 || r == 1
    ensures r == 0 <==> a == b
    ensures Begins(q, a) && !Begins(q, b) ==> r == -1
    ensures !Begins(q, a) && Begins(q, b) ==> r == 1
    ensures Begins(q, a) == Begins(q, b) && a != b ==> (r == -1 <==> LexLess(a, b))
  {
    var aBegins := Begins(q, a);
    var bBegins := Begins(q, b);
    if aBegins == bBegins then
      if a == b then 0 else if LexLess(a, b) then -1 else 1
    else if aBegins then -1 else 1
  }

  /** Swapping the arguments negates the comparison. */
  lemma CompareAntisymmetric(q: string, a: string, b: string)
    ensures Compare(q, b, a) == -Compare(q, a, b)
  {
    LexLessTrichotomy(a, b);
  }

  /** a may come before b in a sorted result. */
  predicate Precedes(q: string, a: string, b: string) {
    Compare(q, a, b) <= 0
  }

  lemma PrecedesTransitive(q: string, a: string, b: string, c: string)
    requires Precedes(q, a, b) && Precedes(q, b, c)
    ensures Precedes(q, a, c)
  {
    if a != b && b != c && Begins(q, a) == Begins(q, b) == Begins(q, c) {
      LexLessTransitive(a, b, c);
    }
  }

  /** Precedes in both directions only for equal strings: the comparator is
      a total order, with no two distinct strings tied. */
  lemma PrecedesAntisymmetric(q: string, a: string, b: string)
    requires Precedes(q, a, b) && Precedes(q, b, a)
    ensures a == b
  {
    CompareAntisymmetric(q, a, b);
  }

  lemma PrecedesTotal(q: string, a: string, b: string)
    ensures Precedes(q, a, b) || Precedes(q, b, a)
  {
    CompareAntisymmetric(q, a, b);
  }

  /** The comparator as the function value handed to `sort`. */
  function Comparator(q: string): (r: (string, string) -> int)
    ensures forall a, b :: r(a, b) == -1 || r(a, b) == 0 || r(a, b) == 1
    ensures forall a, b :: r(a, b) == 0 <==> a == b
  {
    (a: string, b: string) => Compare(q, a, b)
  }

  /** The comparator of filterArray is consistent and ties only equal
      strings: a total order. */
  lemma CompareIsTotalOrder(q: string)
    ensures Sorting.TotalOrder(Comparator(q))
  {
    var cmp := Comparator(q);
    forall a, b, c | cmp(a, b) <= 0 && cmp(b, c) <= 0 ensures cmp(a, c) <= 0 {
      PrecedesTransitive(q, a, b, c);
    }
    forall a, b ensures cmp(a, b) <= 0 || cmp(b, a) <= 0 {
      PrecedesTotal(q, a, b);
    }
    forall a, b | cmp(a, b) <= 0 && cmp(b, a) <= 0 ensures a == b {
      PrecedesAntisymmetric(q, a, b);
    }
  }
}
