/** The stable sort behind `Stream.sorted(Comparator)`, specialised to an integer
    sort key in ascending order. A descending order on a value `v` (Java's
    `Comparator.comparingInt(...).reversed()`) is the ascending order on `-v`:
    both are stable, so they produce the same sequence. */
module Sorting {

  ghost predicate SortedBy<T>(s: seq<T>, key: T -> int) {
    forall i, j :: 0 <= i < j < |s| ==> key(s[i]) <= key(s[j])
  }

  /** No two elements of `s` agree on `proj`. */
  ghost predicate DistinctBy<T, K>(s: seq<T>, proj: T -> K) {
    forall i, j :: 0 <= i < j < |s| ==> proj(s[i]) != proj(s[j])
  }

  /** A sorted sequence stays sorted behind an element no larger than any of it. */
  lemma SortedCons<T>(a: T, t: seq<T>, key: T -> int)
    requires SortedBy(t, key)
    requires forall k :: 0 <= k < |t| ==> key(a) <= key(t[k])
    ensures SortedBy([a] + t, key)
  {
    forall i, j | 0 <= i < j < |t| + 1 ensures key(([a] + t)[i]) <= key(([a] + t)[j]) {
      assert ([a] + t)[j] == t[j - 1];
    }
  }

  /** Inserts `x` in front of the first element whose key is not smaller. */
  function Insert<T>(x: T, s: seq<T>, key: T -> int): (r: seq<T>)
    requires SortedBy(s, key)
    ensures SortedBy(r, key)
    ensures multiset(r) == multiset(s) + multiset{x}
    ensures |r| == |s| + 1
  {
    if s == [] || key(x) <= key(s[0]) then
      SortedCons(x, s, key);
      [x] + s
    else
      assert s == [s[0]] + s[1..];
      var t := Insert(x, s[1..], key);
      assert forall k :: 0 <= k < |t| ==> key(s[0]) <= key(t[k]) by {
        forall k | 0 <= k < |t| ensures key(s[0]) <= key(t[k]) {
          assert t[k] in multiset(t);
          assert t[k] == x || t[k] in s[1..];
        }
      }
      SortedCons(s[0], t, key);
      [s[0]] + t
  }

  /** Insertion sort: the elements of `s` ordered by `key`, equal keys kept in
      their original order. */
  function SortByKey<T>(s: seq<T>, key: T -> int): (r: seq<T>)
    ensures SortedBy(r, key)
    ensures multiset(r) == multiset(s)
    ensures |r| == |s|
  {
    if s == [] then []
    else
      assert s == [s[0]] + s[1..];
      Insert(s[0], SortByKey(s[1..], key), key)
  }

  lemma {:induction false} InsertDistinct<T, K>(x: T, s: seq<T>, key: T -> int, proj: T -> K)
    requires SortedBy(s, key) && DistinctBy(s, proj)
    requires forall y :: y in s ==> proj(y) != proj(x)
    ensures DistinctBy(Insert(x, s, key), proj)
  {
    if s == [] || key(x) <= key(s[0]) {
      var r := [x] + s;
      forall i, j | 0 <= i < j < |r| ensures proj(r[i]) != proj(r[j]) {
        if i == 0 {
          assert r[j] == s[j - 1];
        } else {
          assert r[i] == s[i - 1] && r[j] == s[j - 1];
        }
      }
    } else {
      var t := Insert(x, s[1..], key);
      InsertDistinct(x, s[1..], key, proj);
      var r := [s[0]] + t;
      forall i, j | 0 <= i < j < |r| ensures proj(r[i]) != proj(r[j]) {
        if i == 0 {
          assert r[j] == t[j - 1];
          assert t[j - 1] in multiset(t);
          if t[j - 1] != x {
            assert t[j - 1] in s[1..];
            var m :| 0 <= m < |s[1..]| && s[1..][m] == t[j - 1];
            assert s[m + 1] == t[j - 1];
          }
        } else {
          assert r[i] == t[i - 1] && r[j] == t[j - 1];
        }
      }
    }
  }

  /** Sorting keeps a sequence free of duplicates under any projection. */
  lemma {:induction false} SortDistinct<T, K>(s: seq<T>, key: T -> int, proj: T -> K)
    requires DistinctBy(s, proj)
    ensures DistinctBy(SortByKey(s, key), proj)
  {
    if s != [] {
      var rest := SortByKey(s[1..], key);
      SortDistinct(s[1..], key, proj);
      forall y | y in rest ensures proj(y) != proj(s[0]) {
        assert y in multiset(rest);
        assert y in s[1..];
        var m :| 0 <= m < |s[1..]| && s[1..][m] == y;
        assert s[m + 1] == y;
      }
      InsertDistinct(s[0], rest, key, proj);
    }
  }
}
