/** Sorting a sequence by a comparator in the manner of JavaScript's
    `Array.prototype.sort(comparefn)`: comparefn(a, b) <= 0 lets a stay in
    front of b. The engine chooses the algorithm; the model sorts by
    insertion and proves that, for a comparator that is a total order, every
    sorted permutation equals this one. */
module Sorting {

  ghost predicate Transitive<T(!new)>(cmp: (T, T) -> int) {
    forall a, b, c :: cmp(a, b) <= 0 && cmp(b, c) <= 0 ==> cmp(a, c) <= 0
  }

  ghost predicate Total<T(!new)>(cmp: (T, T) -> int) {
    forall a, b :: cmp(a, b) <= 0 || cmp(b, a) <= 0
  }

  ghost predicate Antisymmetric<T(!new)>(cmp: (T, T) -> int) {
    forall a, b :: cmp(a, b) <= 0 && cmp(b, a) <= 0 ==> a == b
  }

  /** A consistent comparator whose only ties are between equal elements. */
  ghost predicate TotalOrder<T(!new)>(cmp: (T, T) -> int) {
    Transitive(cmp) && Total(cmp) && Antisymmetric(cmp)
  }

  ghost predicate SortedBy<T>(cmp: (T, T) -> int, s: seq<T>) {
    forall i, j :: 0 <= i < j < |s| ==> cmp(s[i], s[j]) <= 0
  }

  /** Places x in front of the first element it may precede. */
  function Insert<T>(cmp: (T, T) -> int, x: T, s: seq<T>): (r: seq<T>)
    ensures |r| == |s| + 1
  {
    if s == [] then [x]
    else if cmp(x, s[0]) <= 0 then [x] + s
    else [s[0]] + Insert(cmp, x, s[1..])
  }

  /** Insertion sort. */
  function Sort<T>(cmp: (T, T) -> int, s: seq<T>): (r: seq<T>)
    ensures |r| == |s|
  {
    if s == [] then [] else Insert(cmp, s[0], Sort(cmp, s[1..]))
  }

  /** Inserting adds exactly one copy of x. */
  lemma {:induction false} InsertCount<T>(cmp: (T, T) -> int, x: T, s: seq<T>)
    ensures multiset(Insert(cmp, x, s)) == multiset(s) + multiset{x}
  {
    if s == [] {
      assert Insert(cmp, x, s) == [x];
    } else if cmp(x, s[0]) <= 0 {
      assert Insert(cmp, x, s) == [x] + s;
    } else {
      var tail := s[1..];
      InsertCount(cmp, x, tail);
      var rest := Insert(cmp, x, tail);
      assert Insert(cmp, x, s) == [s[0]] + rest;
      assert s == [s[0]] + tail;
      calc {
        multiset(Insert(cmp, x, s));
        multiset([s[0]]) + multiset(rest);
        multiset([s[0]]) + multiset(tail) + multiset{x};
        multiset(s) + multiset{x};
      }
    }
  }

  /** Sorting is a permutation. */
  lemma {:induction false} SortPermutation<T>(cmp: (T, T) -> int, s: seq<T>)
    ensures multiset(Sort(cmp, s)) == multiset(s)
  {
    if s != [] {
      SortPermutation(cmp, s[1..]);
      InsertCount(cmp, s[0], Sort(cmp, s[1..]));
      assert s == [s[0]] + s[1..];
    }
  }

  /** An element that may precede x and all of s may precede all of the
      insertion of x into s. */
  lemma {:induction false} InsertBounded<T>(cmp: (T, T) -> int, y: T, x: T, s: seq<T>)
    requires cmp(y, x) <= 0
    requires forall i :: 0 <= i < |s| ==> cmp(y, s[i]) <= 0
    ensures forall i :: 0 <= i < |Insert(cmp, x, s)| ==> cmp(y, Insert(cmp, x, s)[i]) <= 0
  {
    if s != [] && cmp(x, s[0]) > 0 {
      InsertBounded(cmp, y, x, s[1..]);
    }
  }

  /** Putting a lower bound of a sorted sequence in front keeps it sorted. */
  lemma ConsSorted<T>(cmp: (T, T) -> int, y: T, t: seq<T>)
    requires SortedBy(cmp, t)
    requires forall i :: 0 <= i < |t| ==> cmp(y, t[i]) <= 0
    ensures SortedBy(cmp, [y] + t)
  {
    var r := [y] + t;
    forall i, j | 0 <= i < j < |r| ensures cmp(r[i], r[j]) <= 0 {
      if i == 0 {
        assert r[j] == t[j - 1];
      } else {
        assert r[i] == t[i - 1] && r[j] == t[j - 1];
      }
    }
  }

  lemma {:induction false} InsertSorted<T(!new)>(cmp: (T, T) -> int, x: T, s: seq<T>)
    requires Transitive(cmp) && Total(cmp)
    requires SortedBy(cmp, s)
    ensures SortedBy(cmp, Insert(cmp, x, s))
  {
    if s == [] {
    } else if cmp(x, s[0]) <= 0 {
      forall i | 0 <= i < |s| ensures cmp(x, s[i]) <= 0 {
        if i > 0 {
          assert cmp(s[0], s[i]) <= 0;
        }
      }
      ConsSorted(cmp, x, s);
    } else {
      InsertSorted(cmp, x, s[1..]);
      InsertBounded(cmp, s[0], x, s[1..]);
      ConsSorted(cmp, s[0], Insert(cmp, x, s[1..]));
    }
  }

  lemma {:induction false} SortSorted<T(!new)>(cmp: (T, T) -> int, s: seq<T>)
    requires Transitive(cmp) && Total(cmp)
    ensures SortedBy(cmp, Sort(cmp, s))
  {
    if s != [] {
      SortSorted(cmp, s[1..]);
      InsertSorted(cmp, s[0], Sort(cmp, s[1..]));
    }
  }

  /** The head of a sorted sequence may precede each of its elements. */
  lemma SortedHeadPrecedes<T(!new)>(cmp: (T, T) -> int, s: seq<T>, x: T)
    requires Total(cmp)
    requires SortedBy(cmp, s)
    requires x in multiset(s)
    ensures cmp(s[0], x) <= 0
  {
    var k :| 0 <= k < |s| && s[k] == x;
  }

  /** Two sorted sequences with the same elements start alike. */
  lemma SortedHeadsEqual<T(!new)>(cmp: (T, T) -> int, s: seq<T>, t: seq<T>)
    requires Total(cmp) && Antisymmetric(cmp)
    requires SortedBy(cmp, s) && SortedBy(cmp, t)
    requires multiset(s) == multiset(t) && s != []
    ensures t != [] && s[0] == t[0]
  {
    assert s[0] in multiset(t);
    SortedHeadPrecedes(cmp, t, s[0]);
    SortedHeadPrecedes(cmp, s, t[0]);
  }

  /** Removing equal heads from sequences with the same elements leaves
      tails with the same elements. */
  lemma TailsSameElements<T>(s: seq<T>, t: seq<T>)
    requires s != [] && t != [] && s[0] == t[0]
    requires multiset(s) == multiset(t)
    ensures multiset(s[1..]) == multiset(t[1..])
  {
    assert s == [s[0]] + s[1..] && t == [t[0]] + t[1..];
    assert multiset(s[1..]) == multiset(s) - multiset{s[0]};
    assert multiset(t[1..]) == multiset(t) - multiset{t[0]};
  }

  /** Two sequences sorted by a total order with the same elements are equal. */
  lemma {:induction false} SortedUnique<T(!new)>(cmp: (T, T) -> int, s: seq<T>, t: seq<T>)
    requires Total(cmp) && Antisymmetric(cmp)
    requires SortedBy(cmp, s) && SortedBy(cmp, t)
    requires multiset(s) == multiset(t)
    ensures s == t
  {
    if s == [] {
      assert |multiset(t)| == 0;
    } else {
      SortedHeadsEqual(cmp, s, t);
      TailsSameElements(s, t);
      assert SortedBy(cmp, s[1..]) && SortedBy(cmp, t[1..]);
      SortedUnique(cmp, s[1..], t[1..]);
      assert s == [s[0]] + s[1..] && t == [t[0]] + t[1..];
    }
  }
}
