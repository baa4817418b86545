/**
 * Generic facts about sequences: filtering (a Python list comprehension with
 * an `if`, a JavaScript `.filter`), order-preserving subsequences, keys that
 * identify rows uniquely, and a stable sort (Python's `sorted`).
 */
module Seqs {

  /** The elements of `s` that satisfy `p`, in their original order. */
  function Filter<T>(s: seq<T>, p: T -> bool): (r: seq<T>)
    ensures |r| <= |s|
  {
    if s == [] then []
    else (if p(s[0]) then [s[0]] else []) + Filter(s[1..], p)
  }

  /** Exactly the qualifying elements survive a filter. */
  lemma {:induction false} FilterMembers<T>(s: seq<T>, p: T -> bool)
    ensures forall i :: 0 <= i < |Filter(s, p)| ==> Filter(s, p)[i] in s && p(Filter(s, p)[i])
    ensures forall i :: 0 <= i < |s| && p(s[i]) ==> s[i] in Filter(s, p)
  {
    if s != [] {
      FilterMembers(s[1..], p);
      var rest := Filter(s[1..], p);
      assert Filter(s, p) == (if p(s[0]) then [s[0]] else []) + rest;
      forall i | 0 <= i < |s| && p(s[i]) ensures s[i] in Filter(s, p) {
        if i > 0 {
          assert s[i] == s[1..][i - 1];
        }
      }
    }
  }

  /** `a` can be obtained from `b` by deleting elements (order is kept). */
  predicate IsSubsequence<T(==)>(a: seq<T>, b: seq<T>)
    decreases |b|
  {
    if b == [] then a == []
    else (a != [] && a[0] == b[0] && IsSubsequence(a[1..], b[1..])) || IsSubsequence(a, b[1..])
  }

  lemma {:induction false} FilterIsSubsequence<T>(s: seq<T>, p: T -> bool)
    ensures IsSubsequence(Filter(s, p), s)
  {
    if s != [] {
      FilterIsSubsequence(s[1..], p);
      if p(s[0]) {
        assert Filter(s, p) == [s[0]] + Filter(s[1..], p);
        assert Filter(s, p)[1..] == Filter(s[1..], p);
      } else {
        assert Filter(s, p) == Filter(s[1..], p);
      }
    }
  }

  lemma {:induction false} EmptyIsSubsequence<T>(b: seq<T>)
    ensures IsSubsequence([], b)
  {
    if b != [] {
      EmptyIsSubsequence(b[1..]);
    }
  }

  /** Every prefix of a subsequence is a subsequence. */
  lemma {:induction false} SubsequencePrefix<T>(a: seq<T>, b: seq<T>, k: nat)
    requires IsSubsequence(a, b) && k <= |a|
    ensures IsSubsequence(a[..k], b)
    decreases |b|
  {
    if k == 0 {
      assert a[..k] == [];
      EmptyIsSubsequence(b);
    } else if b != [] {
      if a != [] && a[0] == b[0] && IsSubsequence(a[1..], b[1..]) {
        SubsequencePrefix(a[1..], b[1..], k - 1);
        assert a[..k][1..] == a[1..][..k - 1];
      } else {
        SubsequencePrefix(a, b[1..], k);
      }
    }
  }

  /** Filters by predicates that agree everywhere agree. */
  lemma {:induction false} FilterExt<T>(s: seq<T>, p: T -> bool, q: T -> bool)
    requires forall x :: p(x) == q(x)
    ensures Filter(s, p) == Filter(s, q)
  {
    if s != [] {
      FilterExt(s[1..], p, q);
    }
  }

  lemma {:induction false} FilterConcat<T>(a: seq<T>, b: seq<T>, p: T -> bool)
    ensures Filter(a + b, p) == Filter(a, p) + Filter(b, p)
  {
    if a == [] {
      assert a + b == b;
    } else {
      var c := a + b;
      assert c[0] == a[0];
      assert c[1..] == a[1..] + b;
      FilterConcat(a[1..], b, p);
      var h := if p(a[0]) then [a[0]] else [];
      assert Filter(c, p) == h + (Filter(a[1..], p) + Filter(b, p));
      assert Filter(a, p) == h + Filter(a[1..], p);
    }
  }

  /** Filtering keeps everything when every element qualifies. */
  lemma {:induction false} FilterAll<T>(s: seq<T>, p: T -> bool)
    requires forall i :: 0 <= i < |s| ==> p(s[i])
    ensures Filter(s, p) == s
  {
    if s != [] {
      FilterAll(s[1..], p);
    }
  }

  /** Filtering drops everything when no element qualifies. */
  lemma {:induction false} FilterNone<T>(s: seq<T>, p: T -> bool)
    requires forall i :: 0 <= i < |s| ==> !p(s[i])
    ensures Filter(s, p) == []
  {
    if s != [] {
      FilterNone(s[1..], p);
    }
  }

  /** Two complementary filters split a sequence: nothing is lost or duplicated. */
  lemma {:induction false} FilterSplit<T>(s: seq<T>, p: T -> bool, q: T -> bool)
    requires forall x :: q(x) == !p(x)
    ensures |Filter(s, p)| + |Filter(s, q)| == |s|
    ensures multiset(Filter(s, p)) + multiset(Filter(s, q)) == multiset(s)
  {
    if s != [] {
      FilterSplit(s[1..], p, q);
      assert s == [s[0]] + s[1..];
      assert multiset(s) == multiset{s[0]} + multiset(s[1..]);
    }
  }

  /** A stricter filter keeps no more elements than a looser one. */
  lemma {:induction false} FilterStricter<T>(s: seq<T>, p: T -> bool, q: T -> bool)
    requires forall x :: q(x) ==> p(x)
    ensures |Filter(s, q)| <= |Filter(s, p)|
  {
    if s != [] {
      FilterStricter(s[1..], p, q);
    }
  }

  /** No two elements of `s` share a key. */
  predicate UniqueBy<T, K(==)>(s: seq<T>, key: T -> K) {
    forall i, j :: 0 <= i < j < |s| ==> key(s[i]) != key(s[j])
  }

  /** Some element of `s` has key `k`. */
  predicate HasKey<T, K(==)>(s: seq<T>, key: T -> K, k: K) {
    exists i :: 0 <= i < |s| && key(s[i]) == k
  }

  lemma {:induction false} FilterKeepsUnique<T, K>(s: seq<T>, p: T -> bool, key: T -> K)
    requires UniqueBy(s, key)
    ensures UniqueBy(Filter(s, p), key)
  {
    if s != [] {
      FilterKeepsUnique(s[1..], p, key);
      var rest := Filter(s[1..], p);
      if p(s[0]) {
        FilterMembers(s[1..], p);
        forall j | 0 <= j < |rest| ensures key(rest[j]) != key(s[0]) {
          assert rest[j] in s[1..];
          var m :| 0 <= m < |s[1..]| && s[1..][m] == rest[j];
          assert s[m + 1] == rest[j];
        }
        assert Filter(s, p) == [s[0]] + rest;
      } else {
        assert Filter(s, p) == rest;
      }
    }
  }

  /** Appending a row whose key is new keeps keys unique. */
  lemma AppendKeepsUnique<T, K>(s: seq<T>, x: T, key: T -> K)
    requires UniqueBy(s, key) && !HasKey(s, key, key(x))
    ensures UniqueBy(s + [x], key)
  {
    forall i, j | 0 <= i < j < |s + [x]| ensures key((s + [x])[i]) != key((s + [x])[j]) {
      if j == |s| {
        assert (s + [x])[i] == s[i];
      } else {
        assert (s + [x])[i] == s[i] && (s + [x])[j] == s[j];
      }
    }
  }

  // ---------------------------------------------------------------------
  // A stable sort by a numeric key, ascending. Python's
  // `sorted(xs, key=k, reverse=True)` is the stable ascending sort by -k.
  // ---------------------------------------------------------------------

  /** `s` is ordered by non-decreasing key. */
  predicate SortedBy<T>(s: seq<T>, key: T -> real) {
    forall i, j :: 0 <= i < j < |s| ==> key(s[i]) <= key(s[j])
  }

  /** Places `x` before the first element whose key is not smaller. */
  function Insert<T>(x: T, s: seq<T>, key: T -> real): (r: seq<T>)
    ensures |r| == |s| + 1
  {
    if s == [] || key(x) <= key(s[0]) then [x] + s
    else [s[0]] + Insert(x, s[1..], key)
  }

  /** Insertion sort; earlier elements end up before later ones with the same key. */
  function SortBy<T>(s: seq<T>, key: T -> real): (r: seq<T>)
    ensures |r| == |s|
  {
    if s == [] then [] else Insert(s[0], SortBy(s[1..], key), key)
  }

  /** Keeps the elements whose key is exactly `v`. */
  function KeyIs<T>(key: T -> real, v: real): T -> bool {
    x => key(x) == v
  }

  lemma {:induction false} InsertSorted<T>(x: T, s: seq<T>, key: T -> real)
    requires SortedBy(s, key)
    ensures SortedBy(Insert(x, s, key), key)
    ensures multiset(Insert(x, s, key)) == multiset(s) + multiset{x}
  {
    if s == [] || key(x) <= key(s[0]) {
      assert Insert(x, s, key) == [x] + s;
    } else {
      var rest := Insert(x, s[1..], key);
      InsertSorted(x, s[1..], key);
      assert Insert(x, s, key) == [s[0]] + rest;
      assert s == [s[0]] + s[1..];
      forall j | 0 <= j < |rest| ensures key(s[0]) <= key(rest[j]) {
        assert rest[j] in multiset(s[1..]) + multiset{x};
        if rest[j] in multiset(s[1..]) {
          assert rest[j] in s[1..];
        }
      }
    }
  }

  /** Inserting `x` adds `x` to exactly the run of elements that share its key, at the front. */
  lemma {:induction false} InsertStable<T>(x: T, s: seq<T>, key: T -> real, v: real)
    ensures Filter(Insert(x, s, key), KeyIs(key, v))
         == (if key(x) == v then [x] else []) + Filter(s, KeyIs(key, v))
  {
    var p := KeyIs(key, v);
    if s == [] || key(x) <= key(s[0]) {
      assert Insert(x, s, key) == [x] + s;
      FilterConcat([x], s, p);
    } else {
      InsertStable(x, s[1..], key, v);
      InsertStableStep(x, s, key, v);
    }
  }

  lemma InsertStableStep<T>(x: T, s: seq<T>, key: T -> real, v: real)
    requires s != [] && key(s[0]) < key(x)
    requires Filter(Insert(x, s[1..], key), KeyIs(key, v))
          == (if key(x) == v then [x] else []) + Filter(s[1..], KeyIs(key, v))
    ensures Filter(Insert(x, s, key), KeyIs(key, v))
         == (if key(x) == v then [x] else []) + Filter(s, KeyIs(key, v))
  {
    var p := KeyIs(key, v);
    var c := Insert(x, s, key);
    var rest := Insert(x, s[1..], key);
    assert c == [s[0]] + rest;
    assert c[0] == s[0] && c[1..] == rest;
    var h := if p(s[0]) then [s[0]] else [];
    assert Filter(c, p) == h + Filter(rest, p);
    assert Filter(s, p) == h + Filter(s[1..], p);
    if key(x) == v {
      assert h == [];
      assert Filter(c, p) == Filter(rest, p) == [x] + Filter(s[1..], p);
      assert Filter(s, p) == Filter(s[1..], p);
    } else {
      assert Filter(rest, p) == Filter(s[1..], p);
      assert Filter(c, p) == Filter(s, p);
    }
  }

  lemma FilterOne<T>(x: T, p: T -> bool)
    ensures Filter([x], p) == if p(x) then [x] else []
  {
    assert [x][1..] == [];
  }

  /** The sort orders by key and is a permutation of its input. */
  lemma {:induction false} SortBySorted<T>(s: seq<T>, key: T -> real)
    ensures SortedBy(SortBy(s, key), key)
    ensures multiset(SortBy(s, key)) == multiset(s)
  {
    if s != [] {
      SortBySorted(s[1..], key);
      InsertSorted(s[0], SortBy(s[1..], key), key);
      assert s == [s[0]] + s[1..];
    }
  }

  /** The sort is stable: the elements with any one key keep their input order. */
  lemma {:induction false} SortByStable<T>(s: seq<T>, key: T -> real, v: real)
    ensures Filter(SortBy(s, key), KeyIs(key, v)) == Filter(s, KeyIs(key, v))
  {
    if s != [] {
      SortByStable(s[1..], key, v);
      InsertStable(s[0], SortBy(s[1..], key), key, v);
    }
  }

  /** A subsequence of a sorted sequence is sorted; in particular a filter of one. */
  lemma {:induction false} FilterKeepsSorted<T>(s: seq<T>, p: T -> bool, key: T -> real)
    requires SortedBy(s, key)
    ensures SortedBy(Filter(s, p), key)
  {
    if s != [] {
      FilterKeepsSorted(s[1..], p, key);
      var rest := Filter(s[1..], p);
      if p(s[0]) {
        assert Filter(s, p) == [s[0]] + rest;
        FilterMembers(s[1..], p);
        forall j | 0 <= j < |rest| ensures key(s[0]) <= key(rest[j]) {
          assert rest[j] in s[1..];
        }
      }
    }
  }

  /**
   * In a sequence sorted by key, the elements whose key exceeds a bound form
   * a suffix: a filter by such a threshold keeps the tail from some position on.
   */
  lemma {:induction false} FilterAboveIsSuffix<T>(s: seq<T>, key: T -> real, bound: real, p: T -> bool)
    requires SortedBy(s, key)
    requires forall x :: p(x) == (key(x) > bound)
    ensures Filter(s, p) == s[|s| - |Filter(s, p)|..]
    ensures forall i :: 0 <= i < |s| - |Filter(s, p)| ==> !p(s[i])
  {
    if s != [] {
      if p(s[0]) {
        FilterAll(s, p);
      } else {
        FilterAboveIsSuffix(s[1..], key, bound, p);
        assert Filter(s, p) == Filter(s[1..], p);
        assert s[1..][|s[1..]| - |Filter(s, p)|..] == s[|s| - |Filter(s, p)|..];
        assert forall i :: 1 <= i < |s| ==> s[i] == s[1..][i - 1];
      }
    }
  }

  /** The set of values `f` takes on the elements of `s` (a `.values(...).distinct()`). */
  function Image<T, U>(s: seq<T>, f: T -> U): set<U> {
    set i | 0 <= i < |s| :: f(s[i])
  }

  /** The image of a non-empty sequence: its first value and the image of the rest. */
  lemma ImageCons<T, U>(s: seq<T>, f: T -> U)
    requires s != []
    ensures Image(s, f) == {f(s[0])} + Image(s[1..], f)
  {
    forall y | y in Image(s, f) ensures y in {f(s[0])} + Image(s[1..], f) {
      var i :| 0 <= i < |s| && f(s[i]) == y;
      if i > 0 {
        assert s[1..][i - 1] == s[i];
      }
    }
    forall y | y in Image(s[1..], f) ensures y in Image(s, f) {
      var i :| 0 <= i < |s[1..]| && f(s[1..][i]) == y;
      assert s[i + 1] == s[1..][i];
    }
    assert f(s[0]) == f(s[0 + 0]);
  }

  lemma ImageAppend<T, U>(s: seq<T>, x: T, f: T -> U)
    ensures Image(s + [x], f) == Image(s, f) + {f(x)}
  {
    forall y | y in Image(s + [x], f) ensures y in Image(s, f) + {f(x)} {
      var i :| 0 <= i < |s + [x]| && f((s + [x])[i]) == y;
      if i < |s| {
        assert (s + [x])[i] == s[i];
      }
    }
    forall y | y in Image(s, f) ensures y in Image(s + [x], f) {
      var i :| 0 <= i < |s| && f(s[i]) == y;
      assert (s + [x])[i] == s[i];
    }
    assert (s + [x])[|s|] == x;
  }

  /** A key is present in a table exactly when it is in the image of the key function. */
  lemma HasKeyImage<T, K>(s: seq<T>, key: T -> K, k: K)
    ensures HasKey(s, key, k) <==> k in Image(s, key)
  {
  }

  /** When keys are unique there are exactly as many keys as rows. */
  lemma {:induction false} UniqueImageSize<T, K>(s: seq<T>, key: T -> K)
    requires UniqueBy(s, key)
    ensures |Image(s, key)| == |s|
  {
    if s != [] {
      assert UniqueBy(s[1..], key) by {
        forall i, j | 0 <= i < j < |s[1..]| ensures key(s[1..][i]) != key(s[1..][j]) {
          assert s[1..][i] == s[i + 1] && s[1..][j] == s[j + 1];
        }
      }
      UniqueImageSize(s[1..], key);
      ImageCons(s, key);
      assert key(s[0]) !in Image(s[1..], key) by {
        forall i | 0 <= i < |s[1..]| ensures key(s[1..][i]) != key(s[0]) {
          assert s[1..][i] == s[i + 1];
        }
      }
    }
  }

  /** There are never more distinct values than elements, and none only for no elements. */
  lemma {:induction false} ImageSize<T, U>(s: seq<T>, f: T -> U)
    ensures |Image(s, f)| <= |s|
    ensures |Image(s, f)| == 0 <==> s == []
  {
    if s != [] {
      ImageSize(s[1..], f);
      ImageCons(s, f);
      assert f(s[0]) in Image(s, f);
    }
  }
}
