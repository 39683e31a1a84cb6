/** Character-level text operations used by the species matcher: the
    `[^a-zA-Z0-9 ]` stripping, ASCII upper-casing, the normalised query form
    and the case-insensitive literal substring test that a regular
    expression built from an escaped pattern with the `i` flag performs. */
module Text {

  /** The character class `[a-zA-Z0-9 ]`: the characters that survive stripping. */
  predicate IsKept(c: char)
    ensures IsKept(c) ==> ' ' <= c <= 'z'
  {
    'a' <= c <= 'z' || 'A' <= c <= 'Z' || '0' <= c <= '9' || c == ' '
  }

  predicate IsLower(c: char) {
    'a' <= c <= 'z'
  }

  /** `toUpperCase` on one ASCII character: lower-case letters become the
      corresponding capital, every other character is left alone. */
  function UpperChar(c: char): (u: char)
    ensures !IsLower(u)
    ensures IsKept(u) == IsKept(c)
    ensures u == c <==> !IsLower(c)
    ensures IsLower(c) ==> 'A' <= u <= 'Z' && u as int + 32 == c as int
  {
    if IsLower(c) then (c as int - 32) as char else c
  }

  /** `s.toUpperCase()`, character by character. */
  function Upper(s: string): (r: string)
    ensures |r| == |s|
    ensures forall i :: 0 <= i < |s| ==> r[i] == UpperChar(s[i])
  {
    if s == [] then [] else [UpperChar(s[0])] + Upper(s[1..])
  }

  /** `s.replace(/[^a-zA-Z0-9 ]/g, '')`: the kept characters of s, in order. */
  function Strip(s: string): (r: string)
    ensures |r| <= |s|
    ensures forall i :: 0 <= i < |r| ==> IsKept(r[i])
  {
    if s == [] then [] else (if IsKept(s[0]) then [s[0]] else []) + Strip(s[1..])
  }

  /** The normalised query: stripped, then upper-cased. */
  function Normalize(s: string): (r: string)
    ensures |r| <= |s|
    ensures forall i :: 0 <= i < |r| ==> IsKept(r[i]) && !IsLower(r[i])
  {
    Upper(Strip(s))
  }

  /** Two strings that upper-case to the same text: they differ only in the
      letter case of some letters. */
  predicate SameIgnoringCase(a: string, b: string) {
    Upper(a) == Upper(b)
  }

  /** p occurs in s at offset k, letter case ignored: the per-character
      comparison of a case-insensitive regular expression on ASCII text. */
  predicate OccursAt(p: string, s: string, k: int) {
    0 <= k && k + |p| <= |s| && SameIgnoringCase(s[k..k + |p|], p)
  }

  /** `new RegExp(escapeRegex(p), "i").test(s)`: p taken literally, found
      anywhere in s, letter case ignored. */
  function ContainsIgnoringCase(s: string, p: string): (r: bool)
    ensures r <==> exists k :: OccursAt(p, s, k)
  {
    ContainsFrom(s, p, 0)
  }

  /** The scan behind ContainsIgnoringCase: tries every offset from k on. */
  function ContainsFrom(s: string, p: string, k: nat): (r: bool)
    ensures r <==> exists j :: k <= j && OccursAt(p, s, j)
    decreases |s| - k
  {
    if k + |p| > |s| then false
    else if OccursAt(p, s, k) then true
    else ContainsFrom(s, p, k + 1)
  }

  lemma {:induction false} StripConcat(a: string, b: string)
    ensures Strip(a + b) == Strip(a) + Strip(b)
  {
    if a != [] {
      var ab := a + b;
      assert ab[0] == a[0];
      assert ab[1..] == a[1..] + b;
      StripConcat(a[1..], b);
      var head := if IsKept(a[0]) then [a[0]] else [];
      assert Strip(ab) == head + Strip(a[1..] + b);
      assert Strip(a) == head + Strip(a[1..]);
    } else {
      assert a + b == b;
    }
  }

  /** Stripping drops every occurrence of a dropped character and keeps
      every occurrence of a kept one. */
  lemma {:induction false} StripCount(s: string, c: char)
    ensures multiset(Strip(s))[c] == if IsKept(c) then multiset(s)[c] else 0
  {
    if s != [] {
      StripCount(s[1..], c);
      assert s == [s[0]] + s[1..];
      var head := if IsKept(s[0]) then [s[0]] else [];
      assert multiset(Strip(s)) == multiset(head) + multiset(Strip(s[1..]));
    }
  }

  /** A string made of kept characters only is left alone by stripping. */
  lemma {:induction false} StripOfKept(s: string)
    requires forall i :: 0 <= i < |s| ==> IsKept(s[i])
    ensures Strip(s) == s
  {
    if s != [] {
      StripOfKept(s[1..]);
    }
  }

  /** A string without lower-case letters is left alone by upper-casing. */
  lemma UpperOfNoLower(s: string)
    requires forall i :: 0 <= i < |s| ==> !IsLower(s[i])
    ensures Upper(s) == s
  {
  }

  /** Stripping and upper-casing commute, because upper-casing never turns a
      kept character into a dropped one or back. */
  lemma {:induction false} UpperStripCommute(s: string)
    ensures Upper(Strip(s)) == Strip(Upper(s))
  {
    if s != [] {
      UpperStripCommute(s[1..]);
      assert Upper(s)[1..] == Upper(s[1..]);
      assert Upper(s) == [UpperChar(s[0])] + Upper(s[1..]);
      var head := if IsKept(s[0]) then [s[0]] else [];
      assert Strip(s) == head + Strip(s[1..]);
      assert Upper(head + Strip(s[1..])) == Upper(head) + Upper(Strip(s[1..]));
    }
  }

  /** Normalising is idempotent. */
  lemma NormalizeIdempotent(s: string)
    ensures Normalize(Normalize(s)) == Normalize(s)
  {
    var n := Normalize(s);
    StripOfKept(n);
    UpperOfNoLower(n);
  }

  /** The normalised form does not depend on the letter case of the input. */
  lemma NormalizeIgnoresCase(a: string, b: string)
    requires SameIgnoringCase(a, b)
    ensures Normalize(a) == Normalize(b)
  {
    UpperStripCommute(a);
    UpperStripCommute(b);
  }
}
