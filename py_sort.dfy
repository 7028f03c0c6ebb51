/**
 * Python's `list.sort()` as tweets.py uses it: on integers followed by
 * `reverse()` (descending order, in `common_words`) and on strings (ascending
 * code-point order, in `detect_author`). Both are modelled as insertion sort;
 * any correct sort gives the same list, since a sorted permutation is unique.
 */
module PySort {
  import opened PyList

  // ---------------------------------------------------------------------
  // Integers, descending: `s.sort(); s.reverse()`
  // ---------------------------------------------------------------------

  predicate SortedDesc(s: seq<int>) {
    forall i, j :: 0 <= i < j < |s| ==> s[i] >= s[j]
  }

  function InsertDesc(x: int, s: seq<int>): seq<int> {
    if s == [] || x >= s[0] then [x] + s else [s[0]] + InsertDesc(x, s[1..])
  }

  lemma InsertDescMultiset(x: int, s: seq<int>)
    ensures multiset(InsertDesc(x, s)) == multiset(s) + multiset{x}
  {
    if s != [] && x < s[0] {
      InsertDescMultiset(x, s[1..]);
      assert s == [s[0]] + s[1..];
    }
  }

  /** An element no smaller than anything in a descending list may go in front of it. */
  lemma PrependSortedDesc(y: int, t: seq<int>)
    requires SortedDesc(t)
    requires forall j :: 0 <= j < |t| ==> y >= t[j]
    ensures SortedDesc([y] + t)
  {
    var r := [y] + t;
    forall i, j | 0 <= i < j < |r| ensures r[i] >= r[j] {
      assert r[j] == t[j - 1];
      if i > 0 {
        assert r[i] == t[i - 1];
      }
    }
  }

  lemma {:induction false} InsertDescSorted(x: int, s: seq<int>)
    requires SortedDesc(s)
    ensures SortedDesc(InsertDesc(x, s))
  {
    if s == [] || x >= s[0] {
      PrependSortedDesc(x, s);
    } else {
      var t := InsertDesc(x, s[1..]);
      InsertDescSorted(x, s[1..]);
      InsertDescMultiset(x, s[1..]);
      forall j | 0 <= j < |t| ensures s[0] >= t[j] {
        assert t[j] in multiset(s[1..]) + multiset{x};
        if t[j] != x {
          assert t[j] in s[1..];
        }
      }
      PrependSortedDesc(s[0], t);
    }
  }

  /** `s.sort(); s.reverse()`: the elements of s, largest first. */
  function SortDesc(s: seq<int>): (r: seq<int>)
    ensures SortedDesc(r)
    ensures multiset(r) == multiset(s)
  {
    if s == [] then []
    else
      assert s == [s[0]] + s[1..];
      InsertDescSorted(s[0], SortDesc(s[1..]));
      InsertDescMultiset(s[0], SortDesc(s[1..]));
      InsertDesc(s[0], SortDesc(s[1..]))
  }

  /** How many elements of s are at least v. */
  function CountAtLeast(s: seq<int>, v: int): (n: nat)
    ensures n <= |s|
  {
    if s == [] then 0 else (if s[0] >= v then 1 else 0) + CountAtLeast(s[1..], v)
  }

  lemma {:induction false} InsertDescCountAtLeast(x: int, s: seq<int>, v: int)
    requires SortedDesc(s)
    ensures CountAtLeast(InsertDesc(x, s), v) == CountAtLeast(s, v) + (if x >= v then 1 else 0)
  {
    if s != [] && x < s[0] {
      InsertDescCountAtLeast(x, s[1..], v);
      assert ([s[0]] + InsertDesc(x, s[1..]))[1..] == InsertDesc(x, s[1..]);
    }
  }

  /** Sorting keeps, for every threshold v, how many elements reach it. */
  lemma {:induction false} SortDescCountAtLeast(s: seq<int>, v: int)
    ensures CountAtLeast(SortDesc(s), v) == CountAtLeast(s, v)
  {
    if s != [] {
      SortDescCountAtLeast(s[1..], v);
      InsertDescCountAtLeast(s[0], SortDesc(s[1..]), v);
    }
  }

  /** In a descending list the elements that reach v are exactly a prefix, and its
      length is CountAtLeast(s, v). */
  lemma {:induction false} SortedCountAtLeast(s: seq<int>, v: int)
    requires SortedDesc(s)
    ensures forall i :: 0 <= i < |s| ==> (s[i] >= v <==> i < CountAtLeast(s, v))
  {
    if s != [] {
      SortedCountAtLeast(s[1..], v);
      if s[0] < v {
        assert forall i :: 0 <= i < |s| ==> s[i] < v;
        if |s| > 1 {
          assert !(s[1] >= v);
        }
      }
      forall i | 0 <= i < |s| ensures s[i] >= v <==> i < CountAtLeast(s, v) {
        if i > 0 {
          assert s[i] == s[1..][i - 1];
        }
      }
    }
  }

  // ---------------------------------------------------------------------
  // Strings, ascending: `s.sort()`
  // ---------------------------------------------------------------------

  /** Python's `a < b` on str: lexicographic order by code point. */
  predicate StrLess(a: string, b: string) {
    if a == [] then b != []
    else if b == [] then false
    else if a[0] != b[0] then a[0] < b[0]
    else StrLess(a[1..], b[1..])
  }

  predicate StrLeq(a: string, b: string) {
    a == b || StrLess(a, b)
  }

  lemma StrLessIrreflexive(a: string)
    ensures !StrLess(a, a)
  {
    if a != [] {
      StrLessIrreflexive(a[1..]);
    }
  }

  lemma {:induction false} StrLessTransitive(a: string, b: string, c: string)
    requires StrLess(a, b) && StrLess(b, c)
    ensures StrLess(a, c)
  {
    if a != [] && a[0] == b[0] && b[0] == c[0] {
      StrLessTransitive(a[1..], b[1..], c[1..]);
    }
  }

  lemma {:induction false} StrLessTotal(a: string, b: string)
    requires a != b
    ensures StrLess(a, b) || StrLess(b, a)
  {
    if a != [] && b != [] && a[0] == b[0] {
      assert a[1..] != b[1..] by {
        assert a == [a[0]] + a[1..] && b == [b[0]] + b[1..];
      }
      StrLessTotal(a[1..], b[1..]);
    }
  }

  lemma StrLessAsymmetric(a: string, b: string)
    requires StrLess(a, b)
    ensures !StrLess(b, a)
  {
    if StrLess(b, a) {
      StrLessTransitive(a, b, a);
      StrLessIrreflexive(a);
    }
  }

  lemma StrLeqTransitive(a: string, b: string, c: string)
    requires StrLeq(a, b) && StrLeq(b, c)
    ensures StrLeq(a, c)
  {
    if a != b && b != c {
      StrLessTransitive(a, b, c);
    }
  }

  predicate Sorted(s: seq<string>) {
    forall i, j :: 0 <= i < j < |s| ==> StrLeq(s[i], s[j])
  }

  predicate StrictlySorted(s: seq<string>) {
    forall i, j :: 0 <= i < j < |s| ==> StrLess(s[i], s[j])
  }

  /** Insert x before the first element that is not less than it. */
  function InsertAsc(x: string, s: seq<string>): (r: seq<string>)
    ensures multiset(r) == multiset(s) + multiset{x}
  {
    if s == [] || !StrLess(s[0], x) then
      [x] + s
    else
      assert s == [s[0]] + s[1..];
      [s[0]] + InsertAsc(x, s[1..])
  }

  /** An element no greater than anything in an ascending list may go in front of it. */
  lemma PrependSorted(y: string, t: seq<string>)
    requires Sorted(t)
    requires forall j :: 0 <= j < |t| ==> StrLeq(y, t[j])
    ensures Sorted([y] + t)
  {
    var r := [y] + t;
    forall i, j | 0 <= i < j < |r| ensures StrLeq(r[i], r[j]) {
      assert r[j] == t[j - 1];
      if i > 0 {
        assert r[i] == t[i - 1];
      }
    }
  }

  /** Inserting into an ascending list keeps it ascending. */
  lemma {:induction false} InsertAscSorted(x: string, s: seq<string>)
    requires Sorted(s)
    ensures Sorted(InsertAsc(x, s))
  {
    if s == [] || !StrLess(s[0], x) {
      assert s != [] ==> StrLeq(x, s[0]) by {
        if s != [] && x != s[0] {
          StrLessTotal(x, s[0]);
        }
      }
      forall j | 0 <= j < |s| ensures StrLeq(x, s[j]) {
        StrLeqTransitive(x, s[0], s[j]);
      }
      PrependSorted(x, s);
    } else {
      var t := InsertAsc(x, s[1..]);
      InsertAscSorted(x, s[1..]);
      assert s == [s[0]] + s[1..];
      forall j | 0 <= j < |t| ensures StrLeq(s[0], t[j]) {
        assert t[j] in multiset(s[1..]) + multiset{x};
        if t[j] != x {
          assert t[j] in s[1..];
        }
      }
      PrependSorted(s[0], t);
    }
  }

  /** `s.sort()` on a list of strings: insertion sort, a permutation of s. */
  function SortStrings(s: seq<string>): (r: seq<string>)
    ensures multiset(r) == multiset(s)
  {
    if s == [] then []
    else
      assert s == [s[0]] + s[1..];
      InsertAsc(s[0], SortStrings(s[1..]))
  }

  /** The sorted list is ascending. */
  lemma {:induction false} SortStringsSorted(s: seq<string>)
    ensures Sorted(SortStrings(s))
  {
    if s != [] {
      SortStringsSorted(s[1..]);
      InsertAscSorted(s[0], SortStrings(s[1..]));
    }
  }

  lemma NoDuplicatesMultiset<T>(a: seq<T>, b: seq<T>)
    requires multiset(a) == multiset(b) && NoDuplicates(a)
    ensures NoDuplicates(b)
  {
    forall i, j | 0 <= i < j < |b| ensures b[i] != b[j] {
      if b[i] == b[j] {
        assert b == b[..i] + [b[i]] + b[i + 1..j] + [b[j]] + b[j + 1..];
        assert multiset(b)[b[i]] >= 2;
        MultiplicityAtMostOne(a, b[i]);
      }
    }
  }

  lemma {:induction false} MultiplicityAtMostOne<T>(a: seq<T>, x: T)
    requires NoDuplicates(a)
    ensures multiset(a)[x] <= 1
  {
    if a != [] {
      assert a == [a[0]] + a[1..];
      MultiplicityAtMostOne(a[1..], x);
      if a[0] == x {
        assert x !in a[1..];
      }
    }
  }

  /** Two strictly ascending lists with the same elements are the same list. */
  lemma {:induction false} StrictlySortedUnique(a: seq<string>, b: seq<string>)
    requires StrictlySorted(a) && StrictlySorted(b)
    requires forall x :: x in a <==> x in b
    ensures a == b
  {
    assert b != [] ==> b[0] in b;
    if a != [] {
      assert b != [] by { assert a[0] in b; }
      if a[0] != b[0] {
        assert a[0] in b && b[0] in a;
        var i :| 0 <= i < |a| && a[i] == b[0];
        var j :| 0 <= j < |b| && b[j] == a[0];
        assert StrLess(a[0], b[0]);
        assert StrLess(b[0], a[0]);
        StrLessAsymmetric(a[0], b[0]);
      }
      forall x ensures x in a[1..] <==> x in b[1..] {
        if x in a[1..] {
          var i :| 0 <= i < |a[1..]| && a[1..][i] == x;
          assert StrLess(a[0], x);
          StrLessIrreflexive(x);
          assert x in b;
        }
        if x in b[1..] {
          var i :| 0 <= i < |b[1..]| && b[1..][i] == x;
          assert StrLess(b[0], x);
          StrLessIrreflexive(x);
          assert x in a;
        }
      }
      StrictlySortedUnique(a[1..], b[1..]);
      assert a == [a[0]] + a[1..] && b == [b[0]] + b[1..];
    }
  }

  /** Sorting a list without repeats gives a strictly ascending list. */
  lemma SortStringsStrict(s: seq<string>)
    requires NoDuplicates(s)
    ensures StrictlySorted(SortStrings(s)) && NoDuplicates(SortStrings(s))
  {
    var r := SortStrings(s);
    SortStringsSorted(s);
    NoDuplicatesMultiset(s, r);
  }

  lemma SameMembers<T>(a: seq<T>, b: seq<T>)
    requires multiset(a) == multiset(b)
    ensures forall x :: x in a <==> x in b
  {
    forall x ensures x in a <==> x in b {
      assert x in a <==> x in multiset(a);
      assert x in b <==> x in multiset(b);
    }
  }

  /** Two lists without repeats sort to the same list exactly when they have the same
      elements: comparing sorted lists is comparing sets. */
  lemma {:induction false} SortStringsEqual(a: seq<string>, b: seq<string>)
    requires NoDuplicates(a) && NoDuplicates(b)
    ensures SortStrings(a) == SortStrings(b) <==> forall x :: x in a <==> x in b
  {
    var sa, sb := SortStrings(a), SortStrings(b);
    SortStringsStrict(a);
    SortStringsStrict(b);
    SameMembers(a, sa);
    SameMembers(b, sb);
    if forall x :: x in a <==> x in b {
      StrictlySortedUnique(sa, sb);
    }
  }
}
