/**
 * Insertion-ordered JavaScript `Set` and `Map` as sequences: a `Set` is a
 * duplicate-free sequence, a `Map` is a sequence of records whose keys are
 * distinct. Iteration order is the sequence order, as in JavaScript.
 */
module Collections {
  import opened Wrappers

  predicate NoDups<T(==)>(s: seq<T>) {
    forall i, j :: 0 <= i < j < |s| ==> s[i] != s[j]
  }

  /** `Set.prototype.add`: appends only a new element. */
  function SetAdd<T(==,!new)>(s: seq<T>, x: T): (r: seq<T>)
    ensures x in s ==> r == s
    ensures x !in s ==> r == s + [x]
    ensures forall y :: y in r <==> y in s || y == x
    ensures NoDups(s) ==> NoDups(r)
  {
    if x in s then s else s + [x]
  }

  /** Keep the elements satisfying `p`, in order. */
  function Filter<T>(s: seq<T>, p: T -> bool): (r: seq<T>)
    ensures |r| <= |s|
    ensures forall i :: 0 <= i < |r| ==> p(r[i]) && r[i] in s
    ensures forall i :: 0 <= i < |s| && p(s[i]) ==> s[i] in r
  {
    if |s| == 0 then []
    else
      var rest := Filter(s[1..], p);
      assert forall i :: 1 <= i < |s| ==> s[i] == s[1..][i - 1];
      if p(s[0]) then [s[0]] + rest else rest
  }

  lemma {:induction false} FilterAll<T>(s: seq<T>, p: T -> bool)
    requires forall i :: 0 <= i < |s| ==> p(s[i])
    ensures Filter(s, p) == s
  {
    if |s| > 0 {
      assert forall i :: 0 <= i < |s[1..]| ==> p(s[1..][i]) by {
        forall i | 0 <= i < |s[1..]| ensures p(s[1..][i]) { assert s[1..][i] == s[i + 1]; }
      }
      FilterAll(s[1..], p);
    }
  }

  lemma {:induction false} FilterNoDups<T>(s: seq<T>, p: T -> bool)
    ensures NoDups(s) ==> NoDups(Filter(s, p))
  {
    if |s| > 0 && NoDups(s) {
      assert NoDups(s[1..]) by {
        forall i, j | 0 <= i < j < |s[1..]| ensures s[1..][i] != s[1..][j] {
          assert s[1..][i] == s[i + 1] && s[1..][j] == s[j + 1];
        }
      }
      FilterNoDups(s[1..], p);
      assert s[0] !in s[1..] by {
        forall k | 0 <= k < |s[1..]| ensures s[1..][k] != s[0] { assert s[1..][k] == s[k + 1]; }
      }
    }
  }

  /** `Set.prototype.delete`. */
  function SetDelete<T(==,!new)>(s: seq<T>, x: T): (r: seq<T>)
    ensures forall y :: y in r <==> y in s && y != x
    ensures NoDups(s) ==> NoDups(r)
  {
    FilterNoDups(s, y => y != x);
    Filter(s, y => y != x)
  }

  /** Keys of a keyed sequence are distinct: the sequence is a `Map`. */
  predicate KeysDistinct<T>(s: seq<T>, key: T -> string) {
    forall i, j :: 0 <= i < j < |s| ==> key(s[i]) != key(s[j])
  }

  function Keys<T>(s: seq<T>, key: T -> string): (r: seq<string>)
    ensures |r| == |s|
    ensures forall i :: 0 <= i < |s| ==> r[i] == key(s[i])
  {
    seq(|s|, i requires 0 <= i < |s| => key(s[i]))
  }

  /** Position of key `k`, if present. */
  function IndexOf<T>(s: seq<T>, key: T -> string, k: string): (r: Option<nat>)
    ensures r.None? <==> forall i :: 0 <= i < |s| ==> key(s[i]) != k
    ensures r.Some? ==> r.value < |s| && key(s[r.value]) == k
    ensures r.Some? ==> forall i :: 0 <= i < r.value ==> key(s[i]) != k
  {
    if |s| == 0 then None
    else if key(s[0]) == k then Some(0)
    else
      var rest := IndexOf(s[1..], key, k);
      assert forall i :: 1 <= i < |s| ==> s[i] == s[1..][i - 1];
      if rest.Some? then Some(rest.value + 1) else None
  }

  /** `Map.prototype.get`. */
  function Lookup<T>(s: seq<T>, key: T -> string, k: string): (r: Option<T>)
    ensures r.None? <==> forall i :: 0 <= i < |s| ==> key(s[i]) != k
    ensures r.Some? ==> r.value in s && key(r.value) == k
    ensures KeysDistinct(s, key) ==> forall i :: 0 <= i < |s| && key(s[i]) == k ==> r == Some(s[i])
  {
    match IndexOf(s, key, k)
    case None => None
    case Some(i) => Some(s[i])
  }

  /** `Map.prototype.set` of a record under its own key: replaced in place, or appended when new. */
  function Put<T>(s: seq<T>, key: T -> string, x: T): (r: seq<T>)
    ensures IndexOf(s, key, key(x)).Some? ==> |r| == |s| && r == s[IndexOf(s, key, key(x)).value := x]
    ensures IndexOf(s, key, key(x)).None? ==> r == s + [x]
    ensures KeysDistinct(s, key) ==> KeysDistinct(r, key)
    ensures Keys(r, key) == Keys(s, key) || Keys(r, key) == Keys(s, key) + [key(x)]
  {
    match IndexOf(s, key, key(x))
    case None =>
      assert Keys(s + [x], key) == Keys(s, key) + [key(x)];
      s + [x]
    case Some(i) =>
      assert Keys(s[i := x], key) == Keys(s, key);
      s[i := x]
  }

  /** After `set`, the key reads back the new record and every other key reads as before. */
  lemma PutThenLookup<T>(s: seq<T>, key: T -> string, x: T, k: string)
    requires KeysDistinct(s, key)
    ensures Lookup(Put(s, key, x), key, key(x)) == Some(x)
    ensures k != key(x) ==> Lookup(Put(s, key, x), key, k) == Lookup(s, key, k)
  {
    var r := Put(s, key, x);
    var i := IndexOf(s, key, key(x));
    if i.Some? { assert r[i.value] == x; } else { assert r[|s|] == x; }
    if k != key(x) {
      var j := IndexOf(s, key, k);
      if j.Some? {
        assert r[j.value] == s[j.value];
      } else {
        forall m | 0 <= m < |r| ensures key(r[m]) != k {
          if m < |s| && (i.None? || m != i.value) { assert r[m] == s[m]; }
        }
      }
    }
  }

  /** `Map.prototype.delete`: the other records keep their order. */
  function RemoveKey<T>(s: seq<T>, key: T -> string, k: string): (r: seq<T>)
    ensures forall i :: 0 <= i < |r| ==> key(r[i]) != k && r[i] in s
    ensures forall i :: 0 <= i < |s| && key(s[i]) != k ==> s[i] in r
    ensures KeysDistinct(s, key) ==> KeysDistinct(r, key)
    ensures KeysDistinct(s, key) ==> forall j :: j != k ==> Lookup(r, key, j) == Lookup(s, key, j)
  {
    RemoveKeyDistinct(s, key, k);
    Filter(s, x => key(x) != k)
  }

  /**
   * Deleting a key from a map keeps it a map, and every other key finds
   * the same record: that record passes the filter, and the keys stay
   * distinct.
   */
  lemma RemoveKeyDistinct<T>(s: seq<T>, key: T -> string, k: string)
    ensures KeysDistinct(s, key) ==> KeysDistinct(Filter(s, x => key(x) != k), key)
    ensures KeysDistinct(s, key) ==> forall j :: j != k ==>
              Lookup(Filter(s, x => key(x) != k), key, j) == Lookup(s, key, j)
  {
    var p := x => key(x) != k;
    FilterKeysDistinct(s, key, p);
    if KeysDistinct(s, key) {
      var r := Filter(s, p);
      forall j | j != k ensures Lookup(r, key, j) == Lookup(s, key, j) {
        match Lookup(s, key, j)
        case None =>
          forall m | 0 <= m < |r| ensures key(r[m]) != j {
            var i :| 0 <= i < |s| && s[i] == r[m];
          }
        case Some(x) =>
          var i :| 0 <= i < |s| && s[i] == x;
          assert p(s[i]);
          var m :| 0 <= m < |r| && r[m] == x;
      }
    }
  }

  /** Keeping some records of a map keeps it a map. */
  lemma {:induction false} FilterKeysDistinct<T>(s: seq<T>, key: T -> string, p: T -> bool)
    ensures KeysDistinct(s, key) ==> KeysDistinct(Filter(s, p), key)
  {
    if |s| > 0 && KeysDistinct(s, key) {
      assert KeysDistinct(s[1..], key) by {
        forall i, j | 0 <= i < j < |s[1..]| ensures key(s[1..][i]) != key(s[1..][j]) {
          assert s[1..][i] == s[i + 1] && s[1..][j] == s[j + 1];
        }
      }
      FilterKeysDistinct(s[1..], key, p);
      var rest := Filter(s[1..], p);
      if p(s[0]) {
        var r := [s[0]] + rest;
        assert forall i :: 0 <= i < |rest| ==> key(rest[i]) != key(s[0]) by {
          forall i | 0 <= i < |rest| ensures key(rest[i]) != key(s[0]) {
            var m :| 0 <= m < |s[1..]| && s[1..][m] == rest[i];
            assert s[1..][m] == s[m + 1];
          }
        }
        forall i, j | 0 <= i < j < |r| ensures key(r[i]) != key(r[j]) {
          if i > 0 { assert r[i] == rest[i - 1]; }
          assert r[j] == rest[j - 1];
        }
      }
    }
  }

  /** In a duplicate-free sequence every value occurs at most once. */
  lemma {:induction false} NoDupsCount<T>(s: seq<T>, x: T)
    requires NoDups(s)
    ensures multiset(s)[x] <= 1
  {
    if |s| > 0 {
      assert s == [s[0]] + s[1..];
      assert NoDups(s[1..]) by {
        forall i, j | 0 <= i < j < |s[1..]| ensures s[1..][i] != s[1..][j] {
          assert s[1..][i] == s[i + 1] && s[1..][j] == s[j + 1];
        }
      }
      NoDupsCount(s[1..], x);
      if x == s[0] {
        assert x !in s[1..] by {
          forall k | 0 <= k < |s[1..]| ensures s[1..][k] != x { assert s[1..][k] == s[k + 1]; }
        }
      }
    }
  }

  /** A value at two positions occurs at least twice. */
  lemma TwoPositions<T>(s: seq<T>, i: nat, j: nat)
    requires i < j < |s| && s[i] == s[j]
    ensures multiset(s)[s[i]] >= 2
  {
    assert s == s[..i] + [s[i]] + s[i + 1..j] + [s[j]] + s[j + 1..];
  }

  /** A sub-multiset of a map's records is again a map. */
  lemma SubMultisetKeysDistinct<T>(r: seq<T>, s: seq<T>, key: T -> string)
    requires KeysDistinct(s, key) && multiset(r) <= multiset(s)
    ensures KeysDistinct(r, key)
  {
    assert NoDups(s) by {
      forall i, j | 0 <= i < j < |s| ensures s[i] != s[j] { }
    }
    forall i, j | 0 <= i < j < |r| ensures key(r[i]) != key(r[j]) {
      if r[i] == r[j] {
        TwoPositions(r, i, j);
        NoDupsCount(s, r[i]);
      } else {
        assert r[i] in multiset(s) && r[j] in multiset(s);
        var a :| 0 <= a < |s| && s[a] == r[i];
        var b :| 0 <= b < |s| && s[b] == r[j];
      }
    }
  }
}
