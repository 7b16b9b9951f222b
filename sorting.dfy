/** Go's sort.Strings and sort.Slice (by a string key), as a sort function with its two promises:
    the result is ordered and is a permutation of the input. */
module Sorting {

  /** Go's string comparison a <= b: byte-wise lexicographic order, which on valid UTF-8 agrees with
      lexicographic order on code points. */
  predicate LessEq(a: string, b: string) {
    a == [] || (b != [] && (a[0] < b[0] || (a[0] == b[0] && LessEq(a[1..], b[1..]))))
  }

  lemma {:induction false} LessEqTotal(a: string, b: string)
    ensures LessEq(a, b) || LessEq(b, a)
  {
    if a != [] && b != [] && a[0] == b[0] {
      LessEqTotal(a[1..], b[1..]);
    }
  }

  lemma {:induction false} LessEqTransitive(a: string, b: string, c: string)
    requires LessEq(a, b) && LessEq(b, c)
    ensures LessEq(a, c)
  {
    if a != [] && a[0] == b[0] && b[0] == c[0] {
      LessEqTransitive(a[1..], b[1..], c[1..]);
    }
  }

  lemma {:induction false} LessEqAntisymmetric(a: string, b: string)
    requires LessEq(a, b) && LessEq(b, a)
    ensures a == b
  {
    if a != [] {
      LessEqAntisymmetric(a[1..], b[1..]);
      assert a == [a[0]] + a[1..] && b == [b[0]] + b[1..];
    }
  }

  function Identity(s: string): string { s }

  /** Ordered by key. */
  predicate SortedBy<T>(s: seq<T>, key: T -> string) {
    forall i, j :: 0 <= i < j < |s| ==> LessEq(key(s[i]), key(s[j]))
  }

  function Insert<T>(x: T, s: seq<T>, key: T -> string): (r: seq<T>)
    ensures multiset(r) == multiset(s) + multiset{x}
  {
    if s == [] then [x]
    else if LessEq(key(x), key(s[0])) then [x] + s
    else
      assert s == [s[0]] + s[1..];
      [s[0]] + Insert(x, s[1..], key)
  }

  /** The sort (an insertion sort; Go's algorithm is not part of this model). */
  function SortBy<T>(s: seq<T>, key: T -> string): (r: seq<T>)
    ensures multiset(r) == multiset(s)
    ensures |r| == |s|
  {
    if s == [] then []
    else
      assert s == [s[0]] + s[1..];
      Insert(s[0], SortBy(s[1..], key), key)
  }

  /** A lower bound of x and of every element of s bounds every element of Insert(x, s). */
  lemma InsertBounded<T>(x: T, s: seq<T>, key: T -> string, lo: string)
    requires LessEq(lo, key(x))
    requires forall i :: 0 <= i < |s| ==> LessEq(lo, key(s[i]))
    ensures forall i :: 0 <= i < |Insert(x, s, key)| ==> LessEq(lo, key(Insert(x, s, key)[i]))
  {
    var r := Insert(x, s, key);
    forall i | 0 <= i < |r| ensures LessEq(lo, key(r[i])) {
      assert r[i] in multiset(r);
      if r[i] != x {
        assert r[i] in multiset(s);
        var k :| 0 <= k < |s| && s[k] == r[i];
      }
    }
  }

  lemma {:induction false} InsertSorted<T>(x: T, s: seq<T>, key: T -> string)
    requires SortedBy(s, key)
    ensures SortedBy(Insert(x, s, key), key)
  {
    if s == [] {
    } else if LessEq(key(x), key(s[0])) {
      var r := [x] + s;
      forall i, j | 0 <= i < j < |r| ensures LessEq(key(r[i]), key(r[j])) {
        if i == 0 && j > 1 {
          LessEqTransitive(key(x), key(s[0]), key(s[j - 1]));
        }
      }
    } else {
      var rest := s[1..];
      InsertSorted(x, rest, key);
      LessEqTotal(key(x), key(s[0]));
      forall k | 0 <= k < |rest| ensures LessEq(key(s[0]), key(rest[k])) {
        assert rest[k] == s[k + 1];
      }
      InsertBounded(x, rest, key, key(s[0]));
      var t := Insert(x, rest, key);
      var r := [s[0]] + t;
      forall i, j | 0 <= i < j < |r| ensures LessEq(key(r[i]), key(r[j])) {
        assert r[j] == t[j - 1];
        if i > 0 {
          assert r[i] == t[i - 1];
        }
      }
    }
  }

  /** The result is ordered by key. */
  lemma {:induction false} SortBySorted<T>(s: seq<T>, key: T -> string)
    ensures SortedBy(SortBy(s, key), key)
  {
    if s != [] {
      SortBySorted(s[1..], key);
      InsertSorted(s[0], SortBy(s[1..], key), key);
    }
  }

  /** f applied to every element. */
  function Map<T>(f: T -> T, s: seq<T>): (r: seq<T>)
    ensures |r| == |s|
    ensures forall i :: 0 <= i < |s| ==> r[i] == f(s[i])
  {
    seq(|s|, i requires 0 <= i < |s| => f(s[i]))
  }

  lemma MapCons<T>(f: T -> T, y: T, s: seq<T>)
    ensures Map(f, [y] + s) == [f(y)] + Map(f, s)
  {
    var l, r := Map(f, [y] + s), [f(y)] + Map(f, s);
    forall i | 0 <= i < |l| ensures l[i] == r[i] {
      if i > 0 {
        assert ([y] + s)[i] == s[i - 1];
      }
    }
  }

  lemma {:induction false} InsertMap<T>(x: T, t: seq<T>, key: T -> string, f: T -> T)
    requires forall y :: key(f(y)) == key(y)
    ensures Insert(f(x), Map(f, t), key) == Map(f, Insert(x, t, key))
  {
    if t != [] {
      var ft := Map(f, t);
      assert ft[0] == f(t[0]) && ft[1..] == Map(f, t[1..]);
      assert key(f(x)) == key(x) && key(ft[0]) == key(t[0]);
      if !LessEq(key(x), key(t[0])) {
        InsertMap(x, t[1..], key, f);
        assert Insert(f(x), ft, key) == [ft[0]] + Insert(f(x), ft[1..], key);
        MapCons(f, t[0], Insert(x, t[1..], key));
      } else {
        assert Insert(f(x), ft, key) == [f(x)] + ft;
        assert t == [t[0]] + t[1..];
        MapCons(f, x, t);
      }
    }
  }

  /** Sorting commutes with a change of the elements that keeps their keys. */
  lemma {:induction false} SortByMap<T>(s: seq<T>, key: T -> string, f: T -> T)
    requires forall y :: key(f(y)) == key(y)
    ensures SortBy(Map(f, s), key) == Map(f, SortBy(s, key))
  {
    if s != [] {
      assert Map(f, s)[0] == f(s[0]);
      assert Map(f, s)[1..] == Map(f, s[1..]);
      SortByMap(s[1..], key, f);
      InsertMap(s[0], SortBy(s[1..], key), key, f);
    }
  }
}
