/**
 * Python's `sorted(xs, key=key)` on strings: a stable sort under Python's
 * ordering of strings (code points compared left to right, a proper prefix
 * first), written as an insertion sort and characterised by what it promises.
 */
module Sorting {

  // ---------------------------------------------------------------------------
  // Python's ordering of strings

  /** `a <= b` on Python strings. */
  predicate LexLe(a: string, b: string)
    decreases |a|
  {
    if a == [] then true
    else if b == [] then false
    else if a[0] != b[0] then a[0] < b[0]
    else LexLe(a[1..], b[1..])
  }

  lemma {:induction false} LexLeReflexive(a: string)
    ensures LexLe(a, a)
    decreases |a|
  {
    if a != [] {
      LexLeReflexive(a[1..]);
    }
  }

  lemma {:induction false} LexLeTotal(a: string, b: string)
    ensures LexLe(a, b) || LexLe(b, a)
    decreases |a|
  {
    if a != [] && b != [] && a[0] == b[0] {
      LexLeTotal(a[1..], b[1..]);
    }
  }

  lemma {:induction false} LexLeTransitive(a: string, b: string, c: string)
    requires LexLe(a, b) && LexLe(b, c)
    ensures LexLe(a, c)
    decreases |a|
  {
    if a != [] && a[0] == b[0] && b[0] == c[0] {
      LexLeTransitive(a[1..], b[1..], c[1..]);
    }
  }

  lemma {:induction false} LexLeAntisymmetric(a: string, b: string)
    requires LexLe(a, b) && LexLe(b, a)
    ensures a == b
    decreases |a|
  {
    if a != [] {
      LexLeAntisymmetric(a[1..], b[1..]);
      assert a == [a[0]] + a[1..];
      assert b == [b[0]] + b[1..];
    }
  }

  // ---------------------------------------------------------------------------
  // The sort

  /** The comparison of the sort: the keys in Python's order. */
  predicate KeyLe(key: string -> string, a: string, b: string) {
    LexLe(key(a), key(b))
  }

  /** Puts `x` in front of the first element whose key is not below its own. */
  function Insert(key: string -> string, x: string, t: seq<string>): (r: seq<string>)
    ensures multiset(r) == multiset(t) + multiset{x}
    decreases |t|
  {
    if t == [] || KeyLe(key, x, t[0]) then [x] + t
    else
      assert t == [t[0]] + t[1..];
      [t[0]] + Insert(key, x, t[1..])
  }

  /** `sorted(s, key=key)`, as an insertion sort. */
  function SortBy(key: string -> string, s: seq<string>): (r: seq<string>)
    ensures multiset(r) == multiset(s)
    ensures forall x :: x in r <==> x in s
    decreases |s|
  {
    if s == [] then []
    else
      assert s == [s[0]] + s[1..];
      var r := Insert(key, s[0], SortBy(key, s[1..]));
      assert forall x :: x in r <==> x in multiset(r);
      assert forall x :: x in s <==> x in multiset(s);
      r
  }

  predicate SortedBy(key: string -> string, r: seq<string>) {
    forall i, j :: 0 <= i < j < |r| ==> KeyLe(key, r[i], r[j])
  }

  /** The elements whose key is `k`, in their order. */
  function WithKey(key: string -> string, s: seq<string>, k: string): seq<string>
    decreases |s|
  {
    if s == [] then [] else (if key(s[0]) == k then [s[0]] else []) + WithKey(key, s[1..], k)
  }

  lemma SortedTail(key: string -> string, r: seq<string>)
    requires SortedBy(key, r) && r != []
    ensures SortedBy(key, r[1..])
  {
    forall i, j | 0 <= i < j < |r[1..]| ensures KeyLe(key, r[1..][i], r[1..][j]) {
      assert r[1..][i] == r[i + 1] && r[1..][j] == r[j + 1];
    }
  }

  lemma {:induction false} InsertSorted(key: string -> string, x: string, t: seq<string>)
    requires SortedBy(key, t)
    ensures SortedBy(key, Insert(key, x, t))
    decreases |t|
  {
    if t != [] && !KeyLe(key, x, t[0]) {
      var r := Insert(key, x, t[1..]);
      SortedTail(key, t);
      InsertSorted(key, x, t[1..]);
      LexLeTotal(key(x), key(t[0]));
      forall j | 0 <= j < |r| ensures KeyLe(key, t[0], r[j]) {
        assert r[j] in multiset(t[1..]) + multiset{x};
        if r[j] != x {
          assert r[j] in t[1..];
          var i :| 0 <= i < |t[1..]| && t[1..][i] == r[j];
          assert t[1..][i] == t[i + 1];
        }
      }
      var out := [t[0]] + r;
      forall i, j | 0 <= i < j < |out| ensures KeyLe(key, out[i], out[j]) {
        assert out[j] == r[j - 1];
        if i > 0 {
          assert out[i] == r[i - 1];
        }
      }
    } else if t != [] {
      forall j | 0 < j < |t| ensures KeyLe(key, x, t[j]) {
        LexLeTransitive(key(x), key(t[0]), key(t[j]));
      }
      var out := [x] + t;
      forall i, j | 0 <= i < j < |out| ensures KeyLe(key, out[i], out[j]) {
        assert out[j] == t[j - 1];
        if i > 0 {
          assert out[i] == t[i - 1];
        }
      }
    }
  }

  /** Inserting `x` puts it in front of the elements with its key, and moves nothing else of theirs. */
  lemma {:induction false} InsertWithKey(key: string -> string, x: string, t: seq<string>, k: string)
    ensures WithKey(key, Insert(key, x, t), k) == (if key(x) == k then [x] else []) + WithKey(key, t, k)
    decreases |t|
  {
    if t != [] && !KeyLe(key, x, t[0]) {
      LexLeReflexive(key(x));
      InsertWithKey(key, x, t[1..], k);
      assert ([t[0]] + Insert(key, x, t[1..]))[1..] == Insert(key, x, t[1..]);
    } else {
      assert ([x] + t)[1..] == t;
    }
  }

  lemma {:induction false} SortSorted(key: string -> string, s: seq<string>)
    ensures SortedBy(key, SortBy(key, s))
    decreases |s|
  {
    if s != [] {
      SortSorted(key, s[1..]);
      InsertSorted(key, s[0], SortBy(key, s[1..]));
    }
  }

  lemma {:induction false} SortStable(key: string -> string, s: seq<string>, k: string)
    ensures WithKey(key, SortBy(key, s), k) == WithKey(key, s, k)
    decreases |s|
  {
    if s != [] {
      SortStable(key, s[1..], k);
      InsertWithKey(key, s[0], SortBy(key, s[1..]), k);
    }
  }

  lemma {:induction false} WithKeyMember(key: string -> string, s: seq<string>, k: string, y: string)
    ensures y in WithKey(key, s, k) <==> y in s && key(y) == k
    decreases |s|
  {
    if s != [] {
      WithKeyMember(key, s[1..], k, y);
      assert y in s <==> y == s[0] || y in s[1..];
    }
  }

  /** In a sorted sequence the first key is the least. */
  lemma FirstKeyIsLeast(key: string -> string, r: seq<string>, y: string)
    requires SortedBy(key, r) && r != [] && y in r
    ensures KeyLe(key, r[0], y)
  {
    var i :| 0 <= i < |r| && r[i] == y;
    if i == 0 {
      LexLeReflexive(key(y));
    }
  }

  /** Two sequences with the same first element and the same elements of each key agree on their tails too. */
  lemma TailsAgree(key: string -> string, r1: seq<string>, r2: seq<string>)
    requires r1 != [] && r2 != [] && r1[0] == r2[0]
    requires forall k :: WithKey(key, r1, k) == WithKey(key, r2, k)
    ensures forall k :: WithKey(key, r1[1..], k) == WithKey(key, r2[1..], k)
  {
    forall k ensures WithKey(key, r1[1..], k) == WithKey(key, r2[1..], k) {
      var h := if key(r1[0]) == k then [r1[0]] else [];
      assert WithKey(key, r1, k) == h + WithKey(key, r1[1..], k);
      assert WithKey(key, r2, k) == h + WithKey(key, r2[1..], k);
      assert (h + WithKey(key, r1[1..], k))[|h|..] == WithKey(key, r1[1..], k);
      assert (h + WithKey(key, r2[1..], k))[|h|..] == WithKey(key, r2[1..], k);
    }
  }

  /** Two sorted orderings with the same elements of each key start with the same key. */
  lemma HeadKeysEqual(key: string -> string, r1: seq<string>, r2: seq<string>)
    requires SortedBy(key, r1) && SortedBy(key, r2) && r1 != [] && r2 != []
    requires forall k :: WithKey(key, r1, k) == WithKey(key, r2, k)
    ensures key(r1[0]) == key(r2[0])
  {
    var k1, k2 := key(r1[0]), key(r2[0]);
    WithKeyMember(key, r2, k2, r2[0]);
    assert WithKey(key, r1, k2) == WithKey(key, r2, k2);
    WithKeyMember(key, r1, k2, r2[0]);
    FirstKeyIsLeast(key, r1, r2[0]);
    WithKeyMember(key, r1, k1, r1[0]);
    assert WithKey(key, r1, k1) == WithKey(key, r2, k1);
    WithKeyMember(key, r2, k1, r1[0]);
    FirstKeyIsLeast(key, r2, r1[0]);
    LexLeAntisymmetric(k1, k2);
  }

  /** ... and with the same element: the first of that key in both. */
  lemma HeadsEqual(key: string -> string, r1: seq<string>, r2: seq<string>)
    requires SortedBy(key, r1) && SortedBy(key, r2) && r1 != [] && r2 != []
    requires forall k :: WithKey(key, r1, k) == WithKey(key, r2, k)
    ensures r1[0] == r2[0]
  {
    HeadKeysEqual(key, r1, r2);
    var k := key(r1[0]);
    assert WithKey(key, r1, k) == [r1[0]] + WithKey(key, r1[1..], k);
    assert WithKey(key, r2, k) == [r2[0]] + WithKey(key, r2[1..], k);
    assert WithKey(key, r1, k)[0] == WithKey(key, r2, k)[0];
  }

  /**
   * Being sorted by key and keeping the order of the elements of each key
   * determine a sequence: two such orderings are equal.
   */
  lemma {:induction false} SortedStableUnique(key: string -> string, r1: seq<string>, r2: seq<string>)
    requires SortedBy(key, r1) && SortedBy(key, r2)
    requires forall k :: WithKey(key, r1, k) == WithKey(key, r2, k)
    ensures r1 == r2
    decreases |r1|
  {
    if r1 == [] || r2 == [] {
      if r1 != [] {
        WithKeyMember(key, r1, key(r1[0]), r1[0]);
      } else if r2 != [] {
        WithKeyMember(key, r2, key(r2[0]), r2[0]);
      }
    } else {
      HeadsEqual(key, r1, r2);
      TailsAgree(key, r1, r2);
      SortedTail(key, r1);
      SortedTail(key, r2);
      SortedStableUnique(key, r1[1..], r2[1..]);
      assert r1 == [r1[0]] + r1[1..];
      assert r2 == [r2[0]] + r2[1..];
    }
  }

  /**
   * `sorted(s, key=key)` is ordered by key, is a permutation of `s` in which
   * elements of equal key keep their order, and is the only such ordering.
   */
  lemma SortBySpec(key: string -> string, s: seq<string>, r: seq<string>)
    ensures SortedBy(key, SortBy(key, s))
    ensures multiset(SortBy(key, s)) == multiset(s)
    ensures forall k :: WithKey(key, SortBy(key, s), k) == WithKey(key, s, k)
    ensures SortedBy(key, r) && (forall k :: WithKey(key, r, k) == WithKey(key, s, k)) ==> r == SortBy(key, s)
  {
    SortSorted(key, s);
    forall k ensures WithKey(key, SortBy(key, s), k) == WithKey(key, s, k) {
      SortStable(key, s, k);
    }
    if SortedBy(key, r) && (forall k :: WithKey(key, r, k) == WithKey(key, s, k)) {
      SortedStableUnique(key, r, SortBy(key, s));
    }
  }
}
