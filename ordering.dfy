/**
 * Newest-first ordering and first-match lookup, shared by the blog index,
 * the project index and the photo galleries.
 *
 * All three sort with `list.sort((a, b) => key(b) - key(a))`. ECMAScript's
 * `Array.prototype.sort` is stable, so the result is the unique arrangement
 * in which keys never increase and elements with equal keys keep their
 * original order; `SortDesc` is that arrangement, written as an insertion
 * sort, and `SortInPlace` is the in-place array sort proved to produce it.
 */
module Ordering {
  import opened Wrappers
  import opened Seqs

  /** Keys never increase along `s` (newest first). */
  predicate SortedDesc<T>(s: seq<T>, key: T -> int) {
    forall i, j :: 0 <= i < j < |s| ==> key(s[i]) >= key(s[j])
  }

  /** `x` goes in front of the first element whose key is smaller, so after every equal key. */
  function Insert<T>(x: T, s: seq<T>, key: T -> int): seq<T> {
    if s == [] then [x]
    else if key(s[0]) < key(x) then [x] + s
    else [s[0]] + Insert(x, s[1..], key)
  }

  /** The stable descending sort of `s` by `key`. */
  function SortDesc<T>(s: seq<T>, key: T -> int): seq<T> {
    if s == [] then [] else Insert(s[|s| - 1], SortDesc(s[..|s| - 1], key), key)
  }

  /** The elements of `s` whose key is `k`, in their order in `s`. */
  function WithKey<T>(s: seq<T>, key: T -> int, k: int): seq<T> {
    if s == [] then [] else (if key(s[0]) == k then [s[0]] else []) + WithKey(s[1..], key, k)
  }

  lemma {:induction false} InsertPerm<T>(x: T, s: seq<T>, key: T -> int)
    ensures multiset(Insert(x, s, key)) == multiset(s) + multiset{x}
  {
    if s != [] && key(s[0]) >= key(x) {
      InsertPerm(x, s[1..], key);
      assert s == [s[0]] + s[1..];
    }
  }

  /** Inserting an element no larger than a bound into a list no larger than it keeps the bound. */
  lemma {:induction false} InsertBounded<T>(x: T, s: seq<T>, key: T -> int, b: int)
    requires key(x) <= b
    requires forall i :: 0 <= i < |s| ==> key(s[i]) <= b
    ensures forall i :: 0 <= i < |Insert(x, s, key)| ==> key(Insert(x, s, key)[i]) <= b
    decreases |s|
  {
    if s != [] && key(s[0]) >= key(x) {
      InsertBounded(x, s[1..], key, b);
    }
  }

  lemma {:induction false} InsertSorted<T>(x: T, s: seq<T>, key: T -> int)
    requires SortedDesc(s, key)
    ensures SortedDesc(Insert(x, s, key), key)
    decreases |s|
  {
    if s != [] && key(s[0]) >= key(x) {
      var t := Insert(x, s[1..], key);
      InsertSorted(x, s[1..], key);
      InsertBounded(x, s[1..], key, key(s[0]));
      var r := [s[0]] + t;
      assert Insert(x, s, key) == r;
      forall i, j | 0 <= i < j < |r| ensures key(r[i]) >= key(r[j]) {
        assert r[j] == t[j - 1];
        if i > 0 {
          assert r[i] == t[i - 1];
        }
      }
    }
  }

  /** Insertion at the boundary `j` between keys `>= key(x)` and keys `< key(x)`. */
  lemma {:induction false} InsertAt<T>(x: T, s: seq<T>, key: T -> int, j: nat)
    requires j <= |s|
    requires forall k :: 0 <= k < j ==> key(s[k]) >= key(x)
    requires forall k :: j <= k < |s| ==> key(s[k]) < key(x)
    ensures Insert(x, s, key) == s[..j] + [x] + s[j..]
    decreases j
  {
    if j > 0 {
      InsertAt(x, s[1..], key, j - 1);
      assert s[..j] == [s[0]] + s[1..][..j - 1];
      assert s[j..] == s[1..][j - 1..];
    }
  }

  lemma {:induction false} SortDescSorted<T>(s: seq<T>, key: T -> int)
    ensures SortedDesc(SortDesc(s, key), key)
    decreases |s|
  {
    if s != [] {
      SortDescSorted(s[..|s| - 1], key);
      InsertSorted(s[|s| - 1], SortDesc(s[..|s| - 1], key), key);
    }
  }

  lemma {:induction false} SortDescPerm<T>(s: seq<T>, key: T -> int)
    ensures multiset(SortDesc(s, key)) == multiset(s)
    decreases |s|
  {
    if s != [] {
      SortDescPerm(s[..|s| - 1], key);
      InsertPerm(s[|s| - 1], SortDesc(s[..|s| - 1], key), key);
      assert s == s[..|s| - 1] + [s[|s| - 1]];
    }
  }

  lemma {:induction false} WithKeyAppend<T>(a: seq<T>, b: seq<T>, key: T -> int, k: int)
    ensures WithKey(a + b, key, k) == WithKey(a, key, k) + WithKey(b, key, k)
    decreases |a|
  {
    if a == [] {
      assert a + b == b;
    } else {
      var head := if key(a[0]) == k then [a[0]] else [];
      WithKeyAppend(a[1..], b, key, k);
      assert a + b == [a[0]] + (a[1..] + b);
      assert a == [a[0]] + a[1..];
      WithKeyCons(a[0], a[1..] + b, key, k);
      WithKeyCons(a[0], a[1..], key, k);
      assert head + (WithKey(a[1..], key, k) + WithKey(b, key, k))
          == head + WithKey(a[1..], key, k) + WithKey(b, key, k);
    }
  }

  lemma {:induction false} WithKeyAbsent<T>(s: seq<T>, key: T -> int, k: int)
    requires forall i :: 0 <= i < |s| ==> key(s[i]) < k
    ensures WithKey(s, key, k) == []
    decreases |s|
  {
    if s != [] {
      WithKeyAbsent(s[1..], key, k);
    }
  }

  lemma WithKeyCons<T>(y: T, t: seq<T>, key: T -> int, k: int)
    ensures WithKey([y] + t, key, k) == (if key(y) == k then [y] else []) + WithKey(t, key, k)
  {
    assert ([y] + t)[1..] == t;
  }

  lemma {:induction false} InsertWithKey<T>(x: T, s: seq<T>, key: T -> int, k: int)
    requires SortedDesc(s, key)
    ensures WithKey(Insert(x, s, key), key, k)
         == WithKey(s, key, k) + (if key(x) == k then [x] else [])
    decreases |s|
  {
    if s == [] {
    } else if key(s[0]) < key(x) {
      if key(x) == k {
        WithKeyAbsent(s, key, k);
      }
      assert Insert(x, s, key) == [x] + s;
      WithKeyCons(x, s, key, k);
    } else {
      var t := Insert(x, s[1..], key);
      assert Insert(x, s, key) == [s[0]] + t;
      assert SortedDesc(s[1..], key);
      InsertWithKey(x, s[1..], key, k);
      WithKeyCons(s[0], t, key, k);
      WithKeyCons(s[0], s[1..], key, k);
      assert s == [s[0]] + s[1..];
    }
  }

  /** Stability: among elements with the same key, the sort keeps the original order. */
  lemma {:induction false} SortDescStable<T>(s: seq<T>, key: T -> int, k: int)
    ensures WithKey(SortDesc(s, key), key, k) == WithKey(s, key, k)
    decreases |s|
  {
    if s != [] {
      var init, last := s[..|s| - 1], s[|s| - 1];
      SortDescStable(init, key, k);
      SortDescSorted(init, key);
      InsertWithKey(last, SortDesc(init, key), key, k);
      WithKeyAppend(init, [last], key, k);
      assert s == init + [last];
    }
  }

  /** `a.sort((x, y) => key(y) - key(x))`, done in place by insertion. */
  method SortInPlace<T>(a: array<T>, key: T -> int)
    modifies a
    ensures a[..] == SortDesc(old(a[..]), key)
  {
    ghost var orig := a[..];
    var i := 0;
    while i < a.Length
      invariant 0 <= i <= a.Length
      invariant a[..i] == SortDesc(orig[..i], key)
      invariant a[i..] == orig[i..]
    {
      SortDescSorted(orig[..i], key);
      InsertNext(a, i, key);
      assert orig[..i + 1][..i] == orig[..i];
      assert orig[..i + 1] == orig[..i] + [orig[i]];
      i := i + 1;
    }
    assert orig[..a.Length] == orig;
  }

  /** One step of the insertion sort: moves `a[i]` into the sorted prefix `a[..i]`. */
  method InsertNext<T>(a: array<T>, i: nat, key: T -> int)
    requires i < a.Length
    requires SortedDesc(a[..i], key)
    modifies a
    ensures a[..i + 1] == Insert(old(a[i]), old(a[..i]), key)
    ensures a[i + 1..] == old(a[i + 1..])
  {
    var x := a[i];
    ghost var sorted := a[..i];
    var j := ShiftSmaller(a, i, key);
    a[j] := x;
    InsertAt(x, sorted, key, j);
    assert a[..i + 1] == sorted[..j] + [x] + sorted[j..] by {
      forall k | 0 <= k <= i ensures a[k] == (sorted[..j] + [x] + sorted[j..])[k] {
        if k > j {
          assert a[k] == sorted[k - 1];
        }
      }
    }
  }

  /**
   * The inner loop of the insertion: shifts the elements of `a[..i]` whose
   * key is smaller than that of `a[i]` one place right and returns the
   * slot left free.
   */
  method ShiftSmaller<T>(a: array<T>, i: nat, key: T -> int) returns (j: nat)
    requires i < a.Length
    requires SortedDesc(a[..i], key)
    modifies a
    ensures j <= i
    ensures forall k :: 0 <= k < j ==> a[k] == old(a[k]) && key(a[k]) >= key(old(a[i]))
    ensures forall k :: j < k <= i ==> a[k] == old(a[k - 1])
    ensures forall k :: i < k < a.Length ==> a[k] == old(a[k])
    ensures forall k :: j <= k < i ==> key(old(a[k])) < key(old(a[i]))
  {
    var x := a[i];
    j := i;
    while j > 0 && key(a[j - 1]) < key(x)
      invariant 0 <= j <= i
      invariant forall k :: 0 <= k < j ==> a[k] == old(a[k])
      invariant forall k :: j < k <= i ==> a[k] == old(a[k - 1])
      invariant forall k :: i < k < a.Length ==> a[k] == old(a[k])
      invariant forall k :: j <= k < i ==> key(old(a[k])) < key(x)
    {
      a[j] := a[j - 1];
      j := j - 1;
    }
    if j > 0 {
      forall k | 0 <= k < j ensures key(a[k]) >= key(x) {
        assert old(a[..i])[k] == a[k] && old(a[..i])[j - 1] == a[j - 1];
      }
    }
  }

  /** The sort applied to a fresh array holding `s`, as the loaders do with the list they filled. */
  method SortedCopy<T>(s: seq<T>, key: T -> int) returns (r: seq<T>)
    ensures r == SortDesc(s, key)
  {
    var a := new T[|s|](k requires 0 <= k < |s| => s[k]);
    assert a[..] == s;
    SortInPlace(a, key);
    r := a[..];
  }

  /** Sorting neither adds nor drops an element. */
  lemma SortDescMembers<T>(s: seq<T>, key: T -> int, x: T)
    ensures x in SortDesc(s, key) <==> x in s
  {
    SortDescPerm(s, key);
    assert x in SortDesc(s, key) <==> x in multiset(SortDesc(s, key));
    assert x in s <==> x in multiset(s);
  }

  /** `s.findIndex(p)`, with `-1` as `None`: the first element satisfying `p`. */
  function FindFirst<T>(s: seq<T>, p: T -> bool): (r: Option<nat>)
    ensures r.Some? ==> r.value < |s| && p(s[r.value])
    ensures r.Some? ==> forall j :: 0 <= j < r.value ==> !p(s[j])
    ensures r.None? <==> forall j :: 0 <= j < |s| ==> !p(s[j])
  {
    if s == [] then None
    else if p(s[0]) then Some(0)
    else match FindFirst(s[1..], p)
      case None => None
      case Some(i) => Some(i + 1)
  }

  /** The first match in the newest-first order exists iff some element matches, is one of them, and none is newer. */
  lemma FirstInSorted<T>(s: seq<T>, key: T -> int, p: T -> bool)
    ensures var sorted := SortDesc(s, key); var r := FindFirst(sorted, p);
      && (r.Some? <==> exists x :: x in s && p(x))
      && (r.Some? ==> sorted[r.value] in s && p(sorted[r.value]))
      && (r.Some? ==> forall x :: x in s && p(x) ==> key(x) <= key(sorted[r.value]))
  {
    var sorted := SortDesc(s, key);
    var r := FindFirst(sorted, p);
    SortDescSorted(s, key);
    forall x | x in s ensures x in sorted {
      SortDescMembers(s, key, x);
    }
    if r.Some? {
      SortDescMembers(s, key, sorted[r.value]);
      forall x | x in s && p(x) ensures key(x) <= key(sorted[r.value]) {
        var j :| 0 <= j < |sorted| && sorted[j] == x;
        assert r.value <= j;
        if r.value < j { assert key(sorted[r.value]) >= key(sorted[j]); }
      }
    } else {
      forall x | x in s ensures !p(x) {
        var j :| 0 <= j < |sorted| && sorted[j] == x;
      }
    }
  }
  /** The test "has key `k` and satisfies `p`". */
  function KeyAnd<T>(key: T -> int, k: int, p: T -> bool): T -> bool {
    (x: T) => key(x) == k && p(x)
  }

  /** The first match among the elements with key `k` is the first element of `t` that has key `k` and matches. */
  lemma {:induction false} FindFirstWithKey<T>(t: seq<T>, key: T -> int, k: int, p: T -> bool)
    ensures var w := WithKey(t, key, k); var a := FindFirst(w, p); var b := FindFirst(t, KeyAnd(key, k, p));
      && (a.Some? <==> b.Some?)
      && (a.Some? ==> w[a.value] == t[b.value])
    decreases |t|
  {
    if t != [] {
      var q := KeyAnd(key, k, p);
      var w' := WithKey(t[1..], key, k);
      FindFirstWithKey(t[1..], key, k, p);
      FindFirstCons(t[0], t[1..], q);
      assert [t[0]] + t[1..] == t;
      if key(t[0]) == k {
        assert WithKey(t, key, k) == [t[0]] + w';
        FindFirstCons(t[0], w', p);
      } else {
        assert WithKey(t, key, k) == w' by {
          assert [] + w' == w';
        }
      }
    }
  }

  /** The first match in `[y] + t`: `y` itself, or the first match in `t` one place on. */
  lemma FindFirstCons<T>(y: T, t: seq<T>, p: T -> bool)
    ensures var r := FindFirst([y] + t, p); var r' := FindFirst(t, p);
      && (p(y) ==> r == Some(0))
      && (!p(y) ==> (r.Some? <==> r'.Some?) && (r.Some? ==> r.value == r'.value + 1))
  {
    assert ([y] + t)[1..] == t;
  }

  /** The first match of `t` is also the first match among the elements sharing its key. */
  lemma FirstAmongKey<T>(t: seq<T>, key: T -> int, p: T -> bool, r: nat)
    requires FindFirst(t, p) == Some(r)
    ensures var w := WithKey(t, key, key(t[r])); var a := FindFirst(w, p);
      a.Some? && w[a.value] == t[r]
  {
    var q := KeyAnd(key, key(t[r]), p);
    assert FindFirst(t, q) == Some(r);
    FindFirstWithKey(t, key, key(t[r]), p);
  }

  /** The first match among the elements of key `k` is the earliest element of `s` with key `k` that matches. */
  lemma EarliestOfKey<T>(s: seq<T>, key: T -> int, k: int, p: T -> bool)
    ensures var w := WithKey(s, key, k); var a := FindFirst(w, p);
      a.Some? ==> exists i :: (0 <= i < |s| && s[i] == w[a.value] && key(s[i]) == k && p(s[i])
        && forall j :: 0 <= j < i ==> !(key(s[j]) == k && p(s[j])))
  {
    var q := KeyAnd(key, k, p);
    FindFirstWithKey(s, key, k, p);
    var b := FindFirst(s, q);
    if b.Some? {
      forall j | 0 <= j < b.value ensures !(key(s[j]) == k && p(s[j])) {
        assert !q(s[j]);
      }
    }
  }

  /**
   * What the first match in the newest-first order is: the matching element
   * of largest key that comes first in `s`, since the sort is stable.
   */
  lemma FirstInSortedEarliest<T>(s: seq<T>, key: T -> int, p: T -> bool)
    ensures var sorted := SortDesc(s, key); var r := FindFirst(sorted, p);
      r.Some? ==> exists i :: (0 <= i < |s| && s[i] == sorted[r.value] && p(s[i])
        && forall j :: 0 <= j < i && p(s[j]) ==> key(s[j]) < key(s[i]))
  {
    var sorted := SortDesc(s, key);
    var r := FindFirst(sorted, p);
    if r.Some? {
      var x := sorted[r.value];
      var k := key(x);
      FirstAmongKey(sorted, key, p, r.value);
      SortDescStable(s, key, k);
      EarliestOfKey(s, key, k, p);
      FirstInSorted(s, key, p);
      var i :| 0 <= i < |s| && s[i] == x && key(s[i]) == k && p(s[i])
        && forall j :: 0 <= j < i ==> !(key(s[j]) == k && p(s[j]));
      forall j | 0 <= j < i && p(s[j]) ensures key(s[j]) < k {
        assert s[j] in s;
      }
    }
  }

  /**
   * The lookup in the newest-first sort of a list built by pushing `f(x)` for
   * each `x` of `xs`, with the key and the test read off `x` (`kx`, `px`):
   * something is found iff some `x` passes; what is found is the value of
   * such an `x`, no passing `x` has a larger key, and among those with the
   * largest key it is the value of the first.
   */
  lemma LookupMapped<A, B>(xs: seq<A>, f: A -> B, key: B -> int, p: B -> bool, kx: A -> int, px: A -> bool)
    requires forall x :: key(f(x)) == kx(x) && p(f(x)) == px(x)
    ensures var sorted := SortDesc(MapSeq(xs, f), key); var r := FindFirst(sorted, p);
      && (r.Some? <==> exists x :: x in xs && px(x))
      && (r.Some? ==> p(sorted[r.value]) && exists x :: x in xs && sorted[r.value] == f(x))
      && (r.Some? ==> forall x :: x in xs && px(x) ==> kx(x) <= key(sorted[r.value]))
      && (r.Some? ==> exists i :: (0 <= i < |xs| && sorted[r.value] == f(xs[i]) && px(xs[i])
        && forall j :: 0 <= j < i && px(xs[j]) ==> kx(xs[j]) < kx(xs[i])))
  {
    var s := MapSeq(xs, f);
    var sorted := SortDesc(s, key);
    var r := FindFirst(sorted, p);
    FirstInSorted(s, key, p);
    FirstInSortedEarliest(s, key, p);
    forall x | x in xs ensures f(x) in s {
      var k :| 0 <= k < |xs| && xs[k] == x;
      assert s[k] == f(x);
    }
    if r.Some? {
      var i :| 0 <= i < |s| && s[i] == sorted[r.value] && p(s[i])
        && forall j :: 0 <= j < i && p(s[j]) ==> key(s[j]) < key(s[i]);
      assert s[i] == f(xs[i]) && xs[i] in xs;
      forall j | 0 <= j < i && px(xs[j]) ensures kx(xs[j]) < kx(xs[i]) {
        assert s[j] == f(xs[j]);
      }
    } else {
      forall x | x in xs ensures !px(x) {
        assert f(x) in s;
      }
    }
  }
}
