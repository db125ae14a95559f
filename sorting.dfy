/** Python's ordering of lists of strings (and hence of `PurePosixPath`, which
    compares its list of components) and the stable `sorted(..., key=...)`. */
module Sorting {
  import opened Strings

  /** Python's `<` on lists of `str`: lexicographic, element by element. */
  predicate PartsLt(a: seq<string>, b: seq<string>) {
    if |a| == 0 then |b| > 0
    else if |b| == 0 then false
    else if a[0] != b[0] then StrLt(a[0], b[0])
    else PartsLt(a[1..], b[1..])
  }

  lemma {:induction false} PartsLtIrreflexive(a: seq<string>)
    ensures !PartsLt(a, a)
  {
    if |a| > 0 {
      PartsLtIrreflexive(a[1..]);
    }
  }

  lemma {:induction false} PartsLtTransitive(a: seq<string>, b: seq<string>, c: seq<string>)
    requires PartsLt(a, b) && PartsLt(b, c)
    ensures PartsLt(a, c)
  {
    if |a| > 0 && |b| > 0 && |c| > 0 {
      if a[0] == b[0] && b[0] == c[0] {
        PartsLtTransitive(a[1..], b[1..], c[1..]);
      } else if a[0] != b[0] && b[0] != c[0] {
        StrLtTransitive(a[0], b[0], c[0]);
        if a[0] == c[0] {
          StrLtTransitive(a[0], b[0], a[0]);
          StrLtIrreflexive(a[0]);
        }
      }
    }
  }

  lemma {:induction false} PartsLtTotal(a: seq<string>, b: seq<string>)
    requires a != b
    ensures PartsLt(a, b) || PartsLt(b, a)
  {
    if |a| > 0 && |b| > 0 {
      if a[0] == b[0] {
        assert a == [a[0]] + a[1..] && b == [b[0]] + b[1..];
        PartsLtTotal(a[1..], b[1..]);
      } else {
        StrLtTotal(a[0], b[0]);
      }
    }
  }

  lemma PartsLtAsymmetric(a: seq<string>, b: seq<string>)
    requires PartsLt(a, b)
    ensures !PartsLt(b, a)
  {
    if PartsLt(b, a) {
      PartsLtTransitive(a, b, a);
      PartsLtIrreflexive(a);
    }
  }

  /** A proper prefix sorts first: an ancestor directory is smaller than its descendants. */
  lemma {:induction false} ProperPrefixLt(a: seq<string>, b: seq<string>)
    requires |a| < |b| && b[..|a|] == a
    ensures PartsLt(a, b)
  {
    if |a| > 0 {
      assert b[1..][..|a| - 1] == a[1..];
      ProperPrefixLt(a[1..], b[1..]);
    }
  }

  /** Comparing one-element lists compares the strings: the key of a `str` sort. */
  lemma SingletonLt(x: string, y: string)
    ensures PartsLt([x], [y]) == StrLt(x, y)
  {
    if x == y {
      StrLtIrreflexive(x);
      assert [x][1..] == [];
    }
  }

  /** Non-decreasing by key. */
  predicate SortedBy<T>(s: seq<T>, key: T -> seq<string>) {
    forall i, j :: 0 <= i < j < |s| ==> !PartsLt(key(s[j]), key(s[i]))
  }

  /** Inserts `x` before the first element whose key is not smaller (keeps equal keys in order). */
  function Insert<T>(x: T, s: seq<T>, key: T -> seq<string>): seq<T> {
    if s == [] || !PartsLt(key(s[0]), key(x)) then [x] + s
    else [s[0]] + Insert(x, s[1..], key)
  }

  lemma {:induction false} InsertMultiset<T>(x: T, s: seq<T>, key: T -> seq<string>)
    ensures multiset(Insert(x, s, key)) == multiset(s) + multiset{x}
  {
    if s != [] && PartsLt(key(s[0]), key(x)) {
      var t := s[1..];
      InsertMultiset(x, t, key);
      assert s == [s[0]] + t;
      assert Insert(x, s, key) == [s[0]] + Insert(x, t, key);
      assert multiset(Insert(x, s, key)) == multiset{s[0]} + multiset(Insert(x, t, key));
    } else {
      assert Insert(x, s, key) == [x] + s;
    }
  }

  /** A head no greater than anything in a sorted tail gives a sorted list. */
  lemma SortedCons<T>(h: T, t: seq<T>, key: T -> seq<string>)
    requires SortedBy(t, key)
    requires forall y :: y in t ==> !PartsLt(key(y), key(h))
    ensures SortedBy([h] + t, key)
  {
    forall i, j | 0 <= i < j < |[h] + t|
      ensures !PartsLt(key(([h] + t)[j]), key(([h] + t)[i]))
    {
      if i > 0 {
        assert ([h] + t)[i] == t[i - 1];
      }
      assert ([h] + t)[j] == t[j - 1];
    }
  }

  lemma {:induction false} InsertSorted<T>(x: T, s: seq<T>, key: T -> seq<string>)
    requires SortedBy(s, key)
    ensures SortedBy(Insert(x, s, key), key)
  {
    if s == [] || !PartsLt(key(s[0]), key(x)) {
      forall y | y in s
        ensures !PartsLt(key(y), key(x))
      {
        var k :| 0 <= k < |s| && s[k] == y;
        if PartsLt(key(y), key(x)) {
          PartsLtTotalOrEqual(key(s[0]), key(y));
          if PartsLt(key(s[0]), key(y)) {
            PartsLtTransitive(key(s[0]), key(y), key(x));
          }
        }
      }
      SortedCons(x, s, key);
    } else {
      InsertSorted(x, s[1..], key);
      InsertMultiset(x, s[1..], key);
      var rest := Insert(x, s[1..], key);
      forall y | y in rest
        ensures !PartsLt(key(y), key(s[0]))
      {
        assert y in multiset(rest);
        if y == x {
          PartsLtAsymmetric(key(s[0]), key(x));
        } else {
          assert y in multiset(s[1..]);
          var k :| 0 <= k < |s[1..]| && s[1..][k] == y;
          assert s[k + 1] == y;
        }
      }
      SortedCons(s[0], rest, key);
    }
  }

  lemma PartsLtTotalOrEqual(a: seq<string>, b: seq<string>)
    ensures a == b || PartsLt(a, b) || PartsLt(b, a)
  {
    if a != b {
      PartsLtTotal(a, b);
    }
  }

  /** Python's `sorted(s, key=key)`: a stable insertion sort. */
  function SortBy<T>(s: seq<T>, key: T -> seq<string>): (r: seq<T>)
    ensures SortedBy(r, key)
    ensures multiset(r) == multiset(s)
  {
    if s == [] then []
    else
      var rest := SortBy(s[1..], key);
      InsertSorted(s[0], rest, key);
      InsertMultiset(s[0], rest, key);
      assert s == [s[0]] + s[1..];
      Insert(s[0], rest, key)
  }

  /** The elements of `s` with key `k`, in the order of `s`. */
  function WithKey<T>(s: seq<T>, key: T -> seq<string>, k: seq<string>): seq<T> {
    if s == [] then []
    else (if key(s[0]) == k then [s[0]] else []) + WithKey(s[1..], key, k)
  }

  /** Inserting `x` puts it ahead of every element with its key and moves no
      element of `s` past another. */
  lemma {:induction false} InsertWithKey<T>(x: T, s: seq<T>, key: T -> seq<string>, k: seq<string>)
    ensures WithKey(Insert(x, s, key), key, k) == (if key(x) == k then [x] else []) + WithKey(s, key, k)
  {
    var hx := if key(x) == k then [x] else [];
    if s == [] || !PartsLt(key(s[0]), key(x)) {
      var xs := [x] + s;
      assert xs[0] == x && xs[1..] == s;
      assert WithKey(xs, key, k) == hx + WithKey(s, key, k);
    } else {
      var t := s[1..];
      var rest := Insert(x, t, key);
      var hs := if key(s[0]) == k then [s[0]] else [];
      PartsLtIrreflexive(key(x));
      InsertWithKey(x, t, key, k);
      var sr := [s[0]] + rest;
      assert sr[0] == s[0] && sr[1..] == rest;
      assert WithKey(sr, key, k) == hs + (hx + WithKey(t, key, k));
      assert WithKey(s, key, k) == hs + WithKey(t, key, k);
      if key(x) == k {
        assert hs == [];
        assert [] + (hx + WithKey(t, key, k)) == hx + WithKey(t, key, k);
        assert [] + WithKey(t, key, k) == WithKey(t, key, k);
      } else {
        assert hx == [];
        assert [] + WithKey(t, key, k) == WithKey(t, key, k);
      }
    }
  }

  /** `sorted` is stable: the elements sharing any one key come out in the
      order they went in. */
  lemma {:induction false} SortByStable<T>(s: seq<T>, key: T -> seq<string>, k: seq<string>)
    ensures WithKey(SortBy(s, key), key, k) == WithKey(s, key, k)
  {
    if s != [] {
      SortByStable(s[1..], key, k);
      InsertWithKey(s[0], SortBy(s[1..], key), key, k);
    }
  }

  /** No value occurs twice. */
  ghost predicate Distinct<T>(s: seq<T>) {
    forall i, j :: 0 <= i < j < |s| ==> s[i] != s[j]
  }

  /** Two lists without repeats and without common values concatenate to a
      list without repeats. */
  lemma DistinctConcat<T>(a: seq<T>, b: seq<T>)
    requires Distinct(a) && Distinct(b)
    requires forall x :: x in a ==> x !in b
    ensures Distinct(a + b)
  {
    forall i, j | 0 <= i < j < |a + b|
      ensures (a + b)[i] != (a + b)[j]
    {
      if i < |a| && j >= |a| {
        assert (a + b)[i] in a && (a + b)[j] == b[j - |a|];
      }
    }
  }

  lemma {:induction false} DistinctCount<T>(s: seq<T>, x: T)
    requires Distinct(s)
    ensures multiset(s)[x] <= 1
  {
    if s != [] {
      assert s == [s[0]] + s[1..];
      assert Distinct(s[1..]) by {
        forall i, j | 0 <= i < j < |s[1..]|
          ensures s[1..][i] != s[1..][j]
        {
          assert s[1..][i] == s[i + 1] && s[1..][j] == s[j + 1];
        }
      }
      DistinctCount(s[1..], x);
      if x == s[0] {
        assert x !in s[1..] by {
          forall m | 0 <= m < |s[1..]|
            ensures s[1..][m] != x
          {
            assert s[1..][m] == s[m + 1];
          }
        }
      }
    }
  }

  lemma RepeatCount<T>(s: seq<T>, i: nat, j: nat)
    requires i < j < |s| && s[i] == s[j]
    ensures multiset(s)[s[i]] >= 2
  {
    assert s == s[..j] + s[j..];
    assert s[i] == s[..j][i] && s[i] == s[j..][0];
  }

  /** Sorting a list without repeats by an injective key gives a strictly
      increasing list. */
  lemma SortDistinctStrict<T(!new)>(s: seq<T>, key: T -> seq<string>)
    requires Injective(key) && Distinct(s)
    ensures StrictlySortedBy(SortBy(s, key), key)
  {
    var r := SortBy(s, key);
    forall i, j | 0 <= i < j < |r|
      ensures PartsLt(key(r[i]), key(r[j]))
    {
      if r[i] == r[j] {
        RepeatCount(r, i, j);
        DistinctCount(s, r[i]);
      }
      PartsLtTotal(key(r[i]), key(r[j]));
    }
  }

  /** Strictly increasing by key: sorted, and no key repeated. */
  predicate StrictlySortedBy<T>(s: seq<T>, key: T -> seq<string>) {
    forall i, j :: 0 <= i < j < |s| ==> PartsLt(key(s[i]), key(s[j]))
  }

  /** Different values have different keys. */
  ghost predicate Injective<T(!new)>(key: T -> seq<string>) {
    forall x, y :: key(x) == key(y) ==> x == y
  }

  /** Inserting a new value into a strictly increasing list keeps it strictly increasing. */
  lemma {:induction false} InsertStrict<T(!new)>(x: T, s: seq<T>, key: T -> seq<string>)
    requires Injective(key) && StrictlySortedBy(s, key) && x !in s
    ensures StrictlySortedBy(Insert(x, s, key), key)
  {
    if s == [] || !PartsLt(key(s[0]), key(x)) {
      if s != [] {
        assert key(s[0]) != key(x);
        PartsLtTotal(key(x), key(s[0]));
      }
      forall j | 0 <= j < |s|
        ensures PartsLt(key(x), key(s[j]))
      {
        if j > 0 {
          PartsLtTransitive(key(x), key(s[0]), key(s[j]));
        }
      }
      ConsStrict(x, s, key);
    } else {
      var t := s[1..];
      assert x !in t by {
        assert forall y :: y in t ==> y in s;
      }
      TailStrict(s, key);
      InsertStrict(x, t, key);
      InsertMultiset(x, t, key);
      var rest := Insert(x, t, key);
      forall k | 0 <= k < |rest|
        ensures PartsLt(key(s[0]), key(rest[k]))
      {
        var y := rest[k];
        assert y in multiset(rest);
        if y != x {
          assert y in multiset(t);
          var m :| 0 <= m < |t| && t[m] == y;
          assert s[m + 1] == y;
        }
      }
      ConsStrict(s[0], rest, key);
    }
  }

  /** A head below everything in a strictly increasing tail gives a strictly increasing list. */
  lemma ConsStrict<T>(h: T, t: seq<T>, key: T -> seq<string>)
    requires StrictlySortedBy(t, key)
    requires forall k :: 0 <= k < |t| ==> PartsLt(key(h), key(t[k]))
    ensures StrictlySortedBy([h] + t, key)
  {
    forall i, j | 0 <= i < j < |[h] + t|
      ensures PartsLt(key(([h] + t)[i]), key(([h] + t)[j]))
    {
      if i > 0 {
        assert ([h] + t)[i] == t[i - 1];
      }
      assert ([h] + t)[j] == t[j - 1];
    }
  }

  /** The elements of a set in increasing order of key (`sorted(s)` for a set):
      the one strictly increasing list holding exactly the set's elements. */
  ghost function Listing<T(!new)>(s: set<T>, key: T -> seq<string>): (r: seq<T>)
    requires Injective(key)
    ensures StrictlySortedBy(r, key)
    ensures forall x :: x in r <==> x in s
    decreases s
  {
    if s == {} then []
    else
      var x :| x in s;
      var rest := Listing(s - {x}, key);
      InsertStrict(x, rest, key);
      InsertMultiset(x, rest, key);
      assert forall y :: y in Insert(x, rest, key) <==> y in multiset(rest) + multiset{x};
      Insert(x, rest, key)
  }

  /** `sorted(s)` for a set: the elements taken in any order and inserted one
      by one into a sorted list. */
  method SortedListing<T(==,!new)>(s: set<T>, key: T -> seq<string>) returns (r: seq<T>)
    requires Injective(key)
    ensures r == Listing(s, key)
  {
    var left := s;
    r := [];
    while left != {}
      invariant StrictlySortedBy(r, key)
      invariant forall x :: x in s <==> x in left || x in r
      invariant forall x :: x in r ==> x !in left
      decreases left
    {
      var x :| x in left;
      InsertStrict(x, r, key);
      InsertMultiset(x, r, key);
      assert forall y :: y in Insert(x, r, key) <==> y in multiset(r) + multiset{x};
      r := Insert(x, r, key);
      left := left - {x};
    }
    StrictlySortedUnique(r, Listing(s, key), key);
  }

  /** Two strictly increasing lists with the same elements are equal: the sorted
      listing of a set is unique. */
  lemma {:induction false} StrictlySortedUnique<T>(a: seq<T>, b: seq<T>, key: T -> seq<string>)
    requires StrictlySortedBy(a, key) && StrictlySortedBy(b, key)
    requires forall x :: x in a <==> x in b
    ensures a == b
  {
    if a != [] {
      assert a[0] in a;
    }
    if b != [] {
      assert b[0] in b;
    }
    if a != [] && b != [] {
      SameHead(a, b, key);
      forall x
        ensures x in a[1..] <==> x in b[1..]
      {
        if x in a[1..] {
          InTail(a, b, x, key);
        }
        if x in b[1..] {
          InTail(b, a, x, key);
        }
      }
      assert StrictlySortedBy(a[1..], key) && StrictlySortedBy(b[1..], key) by {
        TailStrict(a, key);
        TailStrict(b, key);
      }
      StrictlySortedUnique(a[1..], b[1..], key);
      assert a == [a[0]] + a[1..] && b == [b[0]] + b[1..];
    }
  }

  lemma TailStrict<T>(a: seq<T>, key: T -> seq<string>)
    requires StrictlySortedBy(a, key) && a != []
    ensures StrictlySortedBy(a[1..], key)
  {
    forall i, j | 0 <= i < j < |a[1..]|
      ensures PartsLt(key(a[1..][i]), key(a[1..][j]))
    {
      assert a[1..][i] == a[i + 1] && a[1..][j] == a[j + 1];
    }
  }

  /** Strictly increasing lists with the same elements start alike. */
  lemma SameHead<T>(a: seq<T>, b: seq<T>, key: T -> seq<string>)
    requires StrictlySortedBy(a, key) && StrictlySortedBy(b, key) && a != [] && b != []
    requires forall x :: x in a <==> x in b
    ensures a[0] == b[0]
  {
    assert a[0] in b && b[0] in a;
    if a[0] != b[0] {
      var ia :| 0 <= ia < |a| && a[ia] == b[0];
      var ib :| 0 <= ib < |b| && b[ib] == a[0];
      assert PartsLt(key(a[0]), key(a[ia])) && PartsLt(key(b[0]), key(b[ib]));
      PartsLtTransitive(key(a[0]), key(b[0]), key(a[0]));
      PartsLtIrreflexive(key(a[0]));
    }
  }

  /** Past a shared head, what one strictly increasing list holds the other holds too. */
  lemma InTail<T>(a: seq<T>, b: seq<T>, x: T, key: T -> seq<string>)
    requires StrictlySortedBy(a, key) && a != [] && b != [] && a[0] == b[0]
    requires forall y :: y in a <==> y in b
    requires x in a[1..]
    ensures x in b[1..]
  {
    var k :| 0 <= k < |a[1..]| && a[1..][k] == x;
    assert PartsLt(key(a[0]), key(a[k + 1]));
    PartsLtIrreflexive(key(x));
    assert x in b && x != b[0];
    var m :| 0 <= m < |b| && b[m] == x;
    assert b[1..][m - 1] == x;
  }
}
