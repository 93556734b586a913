/**
 * The stable `Array.prototype.sort` with a numeric comparator, as the unit
 * registry (`pickAt`) and the attack commands (nearest targets first) use it.
 * `SortBy(s, key)` orders ascending by `key`; a descending comparator
 * `b.k - a.k` is `SortBy` with the negated key.
 */
module Sorting {
  import opened Wrappers

  predicate SortedBy<T(==)>(s: seq<T>, key: T -> real) {
    forall i, j :: 0 <= i < j < |s| ==> key(s[i]) <= key(s[j])
  }

  /** Place `x` before the first element whose key is not smaller than its own. */
  function Insert<T(==)>(x: T, s: seq<T>, key: T -> real): (r: seq<T>)
    requires SortedBy(s, key)
    ensures multiset(r) == multiset(s) + multiset{x}
    ensures |r| == |s| + 1
    ensures SortedBy(r, key)
  {
    if |s| == 0 then [x]
    else if key(x) <= key(s[0]) then
      SortedCons(x, s, key);
      [x] + s
    else
      SortedTail(s, key);
      var rest := Insert(x, s[1..], key);
      assert s == [s[0]] + s[1..];
      BoundedByMultiset(key(s[0]), s[1..], x, rest, key);
      SortedCons(s[0], rest, key);
      [s[0]] + rest
  }

  predicate AllAtLeast<T>(b: real, s: seq<T>, key: T -> real) {
    forall k :: 0 <= k < |s| ==> b <= key(s[k])
  }

  lemma SortedTail<T>(s: seq<T>, key: T -> real)
    requires SortedBy(s, key) && |s| > 0
    ensures SortedBy(s[1..], key) && AllAtLeast(key(s[0]), s[1..], key)
  {
    forall i, j | 0 <= i < j < |s[1..]| ensures key(s[1..][i]) <= key(s[1..][j]) {
      assert s[1..][i] == s[i + 1] && s[1..][j] == s[j + 1];
    }
    forall k | 0 <= k < |s[1..]| ensures key(s[0]) <= key(s[1..][k]) {
      assert s[1..][k] == s[k + 1];
    }
  }

  lemma SortedCons<T>(y: T, t: seq<T>, key: T -> real)
    requires SortedBy(t, key) && (|t| > 0 ==> key(y) <= key(t[0]))
    ensures SortedBy([y] + t, key)
  {
    forall i, j | 0 <= i < j < |[y] + t| ensures key(([y] + t)[i]) <= key(([y] + t)[j]) {
      assert ([y] + t)[j] == t[j - 1];
      if i > 0 { assert ([y] + t)[i] == t[i - 1]; }
    }
  }

  /** A lower bound of every element survives adding one more element above it. */
  lemma BoundedByMultiset<T>(b: real, t: seq<T>, x: T, u: seq<T>, key: T -> real)
    requires AllAtLeast(b, t, key) && b <= key(x) && multiset(u) == multiset(t) + multiset{x}
    ensures AllAtLeast(b, u, key)
  {
    forall k | 0 <= k < |u| ensures b <= key(u[k]) {
      assert u[k] in multiset(u);
      if u[k] != x {
        assert u[k] in multiset(t);
        var m :| 0 <= m < |t| && t[m] == u[k];
      }
    }
  }

  /** Stable insertion sort, ascending by `key`. */
  function SortBy<T(==)>(s: seq<T>, key: T -> real): (r: seq<T>)
    ensures multiset(r) == multiset(s)
    ensures |r| == |s|
    ensures SortedBy(r, key)
  {
    if |s| == 0 then []
    else
      assert s == [s[0]] + s[1..];
      Insert(s[0], SortBy(s[1..], key), key)
  }

  /** The elements whose key is `k`, in their order in `s`. */
  function WithKey<T>(s: seq<T>, key: T -> real, k: real): seq<T>
    decreases |s|
  {
    if |s| == 0 then []
    else (if key(s[0]) == k then [s[0]] else []) + WithKey(s[1..], key, k)
  }

  /** Unfolding `WithKey` at a leading element. */
  lemma WithKeyCons<T>(y: T, t: seq<T>, key: T -> real, k: real)
    ensures WithKey([y] + t, key, k) == (if key(y) == k then [y] else []) + WithKey(t, key, k)
  {
    assert ([y] + t)[0] == y && ([y] + t)[1..] == t;
  }

  lemma {:induction false} WithKeyAppend<T>(a: seq<T>, b: seq<T>, key: T -> real, k: real)
    decreases |a|
    ensures WithKey(a + b, key, k) == WithKey(a, key, k) + WithKey(b, key, k)
  {
    if |a| > 0 {
      WithKeyAppend(a[1..], b, key, k);
      assert a + b == [a[0]] + (a[1..] + b);
      assert a == [a[0]] + a[1..];
      WithKeyCons(a[0], a[1..] + b, key, k);
      WithKeyCons(a[0], a[1..], key, k);
    } else {
      assert a + b == b;
    }
  }

  /** Insertion puts the new element before every element of equal key. */
  lemma {:induction false} InsertWithKey<T>(x: T, s: seq<T>, key: T -> real, k: real)
    requires SortedBy(s, key)
    decreases |s|
    ensures WithKey(Insert(x, s, key), key, k) == (if key(x) == k then [x] else []) + WithKey(s, key, k)
  {
    var hx: seq<T> := if key(x) == k then [x] else [];
    if |s| == 0 {
      assert Insert(x, s, key) == [x];
      WithKeyCons(x, [], key, k);
    } else if key(x) <= key(s[0]) {
      assert Insert(x, s, key) == [x] + s;
      WithKeyCons(x, s, key, k);
    } else {
      SortedTail(s, key);
      var rest := Insert(x, s[1..], key);
      assert Insert(x, s, key) == [s[0]] + rest;
      InsertWithKey(x, s[1..], key, k);
      WithKeyCons(s[0], rest, key, k);
      assert s == [s[0]] + s[1..];
      WithKeyCons(s[0], s[1..], key, k);
      var h0: seq<T> := if key(s[0]) == k then [s[0]] else [];
      assert key(x) == k ==> h0 == [];
      assert h0 + (hx + WithKey(s[1..], key, k)) == hx + (h0 + WithKey(s[1..], key, k));
    }
  }

  /**
   * The sort is stable: the elements of any one key come out in the order
   * they went in.
   */
  lemma {:induction false} SortByStable<T>(s: seq<T>, key: T -> real, k: real)
    decreases |s|
    ensures WithKey(SortBy(s, key), key, k) == WithKey(s, key, k)
  {
    if |s| > 0 {
      SortByStable(s[1..], key, k);
      InsertWithKey(s[0], SortBy(s[1..], key), key, k);
    }
  }

  /** The first element satisfying `p`, as a `for` loop with an early `return` finds it. */
  function FirstWith<T(==)>(s: seq<T>, p: T -> bool): (r: Option<T>)
    ensures r.None? <==> forall i :: 0 <= i < |s| ==> !p(s[i])
    ensures r.Some? ==> exists i :: 0 <= i < |s| && s[i] == r.value && p(r.value) &&
                          forall j :: 0 <= j < i ==> !p(s[j])
  {
    if |s| == 0 then None
    else if p(s[0]) then Some(s[0])
    else
      var r := FirstWith(s[1..], p);
      assert forall i :: 0 < i < |s| ==> s[i] == s[1..][i - 1];
      if r.Some? then
        var i :| 0 <= i < |s[1..]| && s[1..][i] == r.value && p(r.value) && forall j :: 0 <= j < i ==> !p(s[1..][j]);
        assert s[i + 1] == r.value;
        assert forall j :: 0 <= j < i + 1 ==> !p(s[j]) by {
          forall j | 0 <= j < i + 1 ensures !p(s[j]) {
            if j > 0 { assert s[j] == s[1..][j - 1]; }
          }
        }
        r
      else r
  }

  /** `x` competing with the best of the rest: `x` wins ties because it comes first. */
  function Challenge<T(==)>(x: T, best: Option<T>, p: T -> bool, key: T -> real): Option<T> {
    if p(x) && (best.None? || key(x) <= key(best.value)) then Some(x) else best
  }

  /** Independent reference: the earliest element with the least key among those satisfying `p`. */
  function Best<T(==)>(s: seq<T>, p: T -> bool, key: T -> real): (r: Option<T>)
    ensures r.None? <==> forall i :: 0 <= i < |s| ==> !p(s[i])
    ensures r.Some? ==> p(r.value) && forall i :: 0 <= i < |s| && p(s[i]) ==> key(r.value) <= key(s[i])
    ensures r.Some? ==> exists i :: 0 <= i < |s| && s[i] == r.value &&
                          forall j :: 0 <= j < i && p(s[j]) ==> key(r.value) < key(s[j])
  {
    if |s| == 0 then None
    else
      var rest := Best(s[1..], p, key);
      assert forall i :: 0 < i < |s| ==> s[i] == s[1..][i - 1];
      var r := Challenge(s[0], rest, p, key);
      if p(s[0]) && (rest.None? || key(s[0]) <= key(rest.value)) then
        assert s[0] == r.value;
        r
      else if rest.None? then rest
      else
        var i :| 0 <= i < |s[1..]| && s[1..][i] == rest.value &&
                 forall j :: 0 <= j < i && p(s[1..][j]) ==> key(rest.value) < key(s[1..][j]);
        assert s[i + 1] == rest.value;
        assert forall j :: 0 <= j < i + 1 && p(s[j]) ==> key(rest.value) < key(s[j]) by {
          forall j | 0 <= j < i + 1 && p(s[j]) ensures key(rest.value) < key(s[j]) {
            if j > 0 { assert s[j] == s[1..][j - 1]; }
          }
        }
        rest
  }

  /** Inserting `x` into a sorted list changes the first `p`-element only if `x` beats it. */
  lemma {:induction false} FirstWithInsert<T>(x: T, s: seq<T>, p: T -> bool, key: T -> real)
    requires SortedBy(s, key)
    ensures FirstWith(Insert(x, s, key), p) == Challenge(x, FirstWith(s, p), p, key)
    decreases |s|
  {
    if |s| == 0 {
    } else if key(x) <= key(s[0]) {
      var f := FirstWith(s, p);
      assert Insert(x, s, key) == [x] + s;
      assert ([x] + s)[1..] == s;
      if f.Some? {
        var i :| 0 <= i < |s| && s[i] == f.value && p(f.value) && forall j :: 0 <= j < i ==> !p(s[j]);
        assert key(s[0]) <= key(s[i]);
      }
    } else {
      assert SortedBy(s[1..], key) by {
        forall i, j | 0 <= i < j < |s[1..]| ensures key(s[1..][i]) <= key(s[1..][j]) {
          assert s[1..][i] == s[i + 1] && s[1..][j] == s[j + 1];
        }
      }
      FirstWithInsert(x, s[1..], p, key);
      var rest := Insert(x, s[1..], key);
      assert Insert(x, s, key) == [s[0]] + rest;
      assert ([s[0]] + rest)[1..] == rest;
    }
  }

  /**
   * The first element of the stably sorted list that satisfies `p` is the
   * earliest element with the least key among those satisfying `p`.
   */
  lemma {:induction false} FirstOfSortedIsBest<T>(s: seq<T>, p: T -> bool, key: T -> real)
    ensures FirstWith(SortBy(s, key), p) == Best(s, p, key)
  {
    if |s| > 0 {
      FirstOfSortedIsBest(s[1..], p, key);
      FirstWithInsert(s[0], SortBy(s[1..], key), p, key);
    }
  }

  /**
   * The first `n` elements of the sorted list: none of the rest has a
   * smaller key, and of the elements sharing a key the earliest listed are
   * the ones kept.
   */
  function TakeSmallest<T(==)>(s: seq<T>, key: T -> real, n: nat): (r: seq<T>)
    ensures |r| == if |s| < n then |s| else n
    ensures multiset(r) <= multiset(s)
    ensures forall x, y :: x in r && y in multiset(s) - multiset(r) ==> key(x) <= key(y)
    ensures SortedBy(r, key)
    ensures forall k :: WithKey(r, key, k) <= WithKey(s, key, k)
  {
    var sorted := SortBy(s, key);
    var m := if |s| < n then |s| else n;
    SplitSorted(sorted, m, key);
    PrefixKeepsEarliest(s, key, m);
    sorted[..m]
  }

  lemma PrefixKeepsEarliest<T>(s: seq<T>, key: T -> real, m: nat)
    requires m <= |s|
    ensures forall k :: WithKey(SortBy(s, key)[..m], key, k) <= WithKey(s, key, k)
  {
    var sorted := SortBy(s, key);
    assert sorted == sorted[..m] + sorted[m..];
    forall k ensures WithKey(sorted[..m], key, k) <= WithKey(s, key, k) {
      WithKeyAppend(sorted[..m], sorted[m..], key, k);
      SortByStable(s, key, k);
    }
  }

  lemma SplitSorted<T>(sorted: seq<T>, m: nat, key: T -> real)
    requires SortedBy(sorted, key) && m <= |sorted|
    ensures multiset(sorted[..m]) <= multiset(sorted)
    ensures multiset(sorted) - multiset(sorted[..m]) == multiset(sorted[m..])
    ensures forall x, y :: x in sorted[..m] && y in multiset(sorted[m..]) ==> key(x) <= key(y)
    ensures SortedBy(sorted[..m], key)
  {
    assert sorted == sorted[..m] + sorted[m..];
    assert multiset(sorted) == multiset(sorted[..m]) + multiset(sorted[m..]);
    forall x, y | x in sorted[..m] && y in multiset(sorted[m..]) ensures key(x) <= key(y) {
      var i :| 0 <= i < m && sorted[..m][i] == x;
      assert y in sorted[m..];
      var j :| 0 <= j < |sorted| - m && sorted[m..][j] == y;
      assert sorted[i] == x && sorted[m + j] == y;
    }
    forall i, j | 0 <= i < j < m ensures key(sorted[..m][i]) <= key(sorted[..m][j]) {
      assert sorted[..m][i] == sorted[i] && sorted[..m][j] == sorted[j];
    }
  }
}
