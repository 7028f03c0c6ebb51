/**
 * The parts of Python's `list` and `dict` that tweets.py relies on: `count`,
 * `remove`, `max`, membership, and iterating over a dict's keys and values.
 * A dict is a Dafny `map`; iterating over it visits its keys in an order the
 * model leaves open.
 */
module PyList {

  /** `s.count(x)`. */
  function Count<T(==)>(s: seq<T>, x: T): (n: nat)
    ensures n <= |s|
  {
    if s == [] then 0 else Count(s[..|s| - 1], x) + (if s[|s| - 1] == x then 1 else 0)
  }

  lemma {:induction false} CountAppend<T>(a: seq<T>, b: seq<T>, x: T)
    ensures Count(a + b, x) == Count(a, x) + Count(b, x)
    decreases |b|
  {
    if b == [] {
      assert a + b == a;
    } else {
      assert (a + b)[..|a + b| - 1] == a + b[..|b| - 1];
      CountAppend(a, b[..|b| - 1], x);
    }
  }

  /** `x in s` exactly when `s.count(x)` is positive. */
  lemma {:induction false} CountPositive<T>(s: seq<T>, x: T)
    ensures Count(s, x) > 0 <==> x in s
  {
    if s != [] {
      var p := s[..|s| - 1];
      CountPositive(p, x);
      assert s == p + [s[|s| - 1]];
    }
  }

  /** `s.count(x) > 1` exactly when x stands at two different positions of s. */
  lemma {:induction false} CountAtLeastTwo<T>(s: seq<T>, x: T)
    ensures Count(s, x) > 1 <==> exists i, j :: 0 <= i < j < |s| && s[i] == x && s[j] == x
  {
    if s != [] {
      var n := |s|;
      var p := s[..n - 1];
      CountAtLeastTwo(p, x);
      CountPositive(p, x);
      if Count(s, x) > 1 && Count(p, x) <= 1 {
        var i :| 0 <= i < |p| && p[i] == x;
        assert s[i] == x && s[n - 1] == x;
      }
      if exists i, j :: 0 <= i < j < n && s[i] == x && s[j] == x {
        var i, j :| 0 <= i < j < n && s[i] == x && s[j] == x;
        if j < n - 1 {
          assert p[i] == x && p[j] == x;
        } else {
          assert p[i] == x;
        }
      }
    }
  }

  /** A sequence whose positions other than p all hold x: its counts of x and of s[p]. */
  lemma {:induction false} CountAllButOne<T>(s: seq<T>, p: nat, x: T)
    requires p < |s| && s[p] != x
    requires forall i :: 0 <= i < |s| && i != p ==> s[i] == x
    ensures Count(s, x) == |s| - 1 && Count(s, s[p]) == 1
  {
    var y := s[p];
    assert s == s[..p] + [y] + s[p + 1..];
    CountAppend(s[..p] + [y], s[p + 1..], x);
    CountAppend(s[..p], [y], x);
    CountAppend(s[..p] + [y], s[p + 1..], y);
    CountAppend(s[..p], [y], y);
    CountAllSame(s[..p], x);
    CountAllSame(s[p + 1..], x);
    CountNone(s[..p], y);
    CountNone(s[p + 1..], y);
    assert Count([y], x) == 0 by { assert [y][..0] == []; }
    assert Count([y], y) == 1 by { assert [y][..0] == []; }
  }

  lemma CountAllSame<T>(s: seq<T>, x: T)
    requires forall i :: 0 <= i < |s| ==> s[i] == x
    ensures Count(s, x) == |s|
  {
    if s != [] {
      CountAllSame(s[..|s| - 1], x);
    }
  }

  lemma CountNone<T>(s: seq<T>, x: T)
    requires x !in s
    ensures Count(s, x) == 0
  {
    if s != [] {
      CountNone(s[..|s| - 1], x);
    }
  }

  /** If two different values together fill every position of s, then every
      position holds one of them. */
  lemma {:induction false} CountsFill<T>(s: seq<T>, x: T, y: T)
    requires x != y
    requires Count(s, x) + Count(s, y) == |s|
    ensures forall i :: 0 <= i < |s| ==> s[i] == x || s[i] == y
  {
    if s != [] {
      var p := s[..|s| - 1];
      CountTwoValues(p, x, y);
      CountsFill(p, x, y);
      forall i | 0 <= i < |s| ensures s[i] == x || s[i] == y {
        if i < |s| - 1 {
          assert s[i] == p[i];
        }
      }
    }
  }

  lemma {:induction false} CountTwoValues<T>(s: seq<T>, x: T, y: T)
    requires x != y
    ensures Count(s, x) + Count(s, y) <= |s|
  {
    if s != [] {
      CountTwoValues(s[..|s| - 1], x, y);
    }
  }

  /** `s.remove(x)`: drop the first occurrence of x (Python raises when there is none). */
  function RemoveFirst<T(==)>(s: seq<T>, x: T): (r: seq<T>)
    requires x in s
    ensures |r| == |s| - 1
  {
    if s[0] == x then s[1..] else [s[0]] + RemoveFirst(s[1..], x)
  }

  /** Removing x from a list whose first x follows the prefix a takes out exactly that x. */
  lemma {:induction false} RemoveFirstAfter<T>(a: seq<T>, x: T, b: seq<T>)
    requires x !in a
    ensures RemoveFirst(a + [x] + b, x) == a + b
  {
    if a == [] {
      assert a + [x] + b == [x] + b;
    } else {
      assert (a + [x] + b)[1..] == a[1..] + [x] + b;
      RemoveFirstAfter(a[1..], x, b);
    }
  }

  /** `max(s)` for a non-empty list of integers. */
  function Max(s: seq<int>): (m: int)
    requires s != []
    ensures m in s
    ensures forall i :: 0 <= i < |s| ==> s[i] <= m
  {
    if |s| == 1 then s[0]
    else
      var m := Max(s[..|s| - 1]);
      assert s[..|s| - 1][0] == s[0];
      if s[|s| - 1] > m then s[|s| - 1] else m
  }

  predicate NoDuplicates<T(==)>(s: seq<T>) {
    forall i, j :: 0 <= i < j < |s| ==> s[i] != s[j]
  }

  /** `ks` lists every key of m exactly once: a possible `list(m.keys())`. */
  ghost predicate Enumerates<K, V>(ks: seq<K>, m: map<K, V>) {
    NoDuplicates(ks) && (forall i :: 0 <= i < |ks| ==> ks[i] in m) && forall k :: k in m ==> k in ks
  }

  /** `list(m.keys())`, in whatever order the dict iterates. */
  method KeyList<K(==), V>(m: map<K, V>) returns (ks: seq<K>)
    ensures Enumerates(ks, m)
    ensures |ks| == |m|
  {
    ks := [];
    var rest := m.Keys;
    while rest != {}
      invariant rest <= m.Keys
      invariant NoDuplicates(ks)
      invariant forall k :: k in ks <==> k in m && k !in rest
      invariant |ks| + |rest| == |m|
      decreases |rest|
    {
      var k :| k in rest;
      ks := ks + [k];
      rest := rest - {k};
    }
  }

  /** The values of m in the order of the keys ks: `list(m.values())` beside `list(m.keys())`. */
  function ValuesAt<K, V>(m: map<K, V>, ks: seq<K>): (vs: seq<V>)
    requires forall k :: k in ks ==> k in m
    ensures |vs| == |ks|
    ensures forall i :: 0 <= i < |ks| ==> vs[i] == m[ks[i]]
  {
    seq(|ks|, i requires 0 <= i < |ks| => m[ks[i]])
  }

  /** a and b have the same value at each of the first n keys of ks. */
  ghost predicate AgreeOn<K, V>(a: map<K, V>, b: map<K, V>, ks: seq<K>, n: nat)
    requires n <= |ks|
  {
    forall j :: 0 <= j < n ==> ks[j] in a && ks[j] in b && a[ks[j]] == b[ks[j]]
  }

  /** Setting the next listed key to b's value extends the agreement by one key. */
  lemma AgreeOnStep<K, V>(a: map<K, V>, b: map<K, V>, ks: seq<K>, n: nat, v: V)
    requires n < |ks| && NoDuplicates(ks) && AgreeOn(a, b, ks, n)
    requires ks[n] in b && b[ks[n]] == v
    ensures AgreeOn(a[ks[n] := v], b, ks, n + 1)
  {
  }

  /** Agreement on a listing of all keys, with equal key sets, is equality. */
  lemma AgreeOnAll<K, V>(a: map<K, V>, b: map<K, V>, ks: seq<K>)
    requires a.Keys == b.Keys && (forall k :: k in b ==> k in ks) && AgreeOn(a, b, ks, |ks|)
    ensures a == b
  {
    forall k | k in b
      ensures a[k] == b[k]
    {
      var j :| 0 <= j < |ks| && ks[j] == k;
    }
  }

  /** `s.index(x)`: the position of the first occurrence of x. */
  function FirstIndex<T(==)>(s: seq<T>, x: T): (i: nat)
    requires x in s
    ensures i < |s| && s[i] == x
    ensures forall j :: 0 <= j < i ==> s[j] != x
  {
    if s[0] == x then 0 else 1 + FirstIndex(s[1..], x)
  }

  /** Appending to a list does not move the first occurrence of anything already in it. */
  lemma FirstIndexAppend<T>(s: seq<T>, y: T, x: T)
    requires x in s
    ensures FirstIndex(s + [y], x) == FirstIndex(s, x)
  {
    var i := FirstIndex(s, x);
    var j := FirstIndex(s + [y], x);
    assert (s + [y])[i] == x;
    assert j < |s| ==> s[j] == x;
  }
}
