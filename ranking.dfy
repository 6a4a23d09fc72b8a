/**
 * Ordering rows by a sales figure from largest to smallest, with rows whose
 * figure is missing after every row that has one, and keeping the first n.
 * Nothing is promised about the relative order of rows with equal keys.
 */
module Ranking {
  import opened Wrappers

  /** a may be placed before b: a larger or equal present value, or b missing. */
  predicate Before(a: Option<nat>, b: Option<nat>)
  {
    match a
    case None => b.None?
    case Some(x) => b.None? || b.value <= x
  }

  predicate SortedBy<T>(s: seq<T>, key: T -> Option<nat>)
  {
    forall i, j :: 0 <= i < j < |s| ==> Before(key(s[i]), key(s[j]))
  }

  /** Places x in front of the first element of s that it may precede. */
  function Insert<T>(x: T, s: seq<T>, key: T -> Option<nat>): (r: seq<T>)
    ensures multiset(r) == multiset(s) + multiset{x}
    ensures SortedBy(s, key) ==> SortedBy(r, key)
  {
    if s == [] || Before(key(x), key(s[0])) then
      assert SortedBy(s, key) ==> SortedBy([x] + s, key) by {
        if SortedBy(s, key) && s != [] {
          FrontBeforeAll(key, x, s);
        }
      }
      [x] + s
    else
      var rest := Insert(x, s[1..], key);
      assert s == [s[0]] + s[1..];
      assert SortedBy(s, key) ==> SortedBy([s[0]] + rest, key) by {
        if SortedBy(s, key) {
          HeadBeforeInsert(key, x, s, rest);
        }
      }
      [s[0]] + rest
  }

  lemma FrontBeforeAll<T>(key: T -> Option<nat>, x: T, s: seq<T>)
    requires s != [] && SortedBy(s, key) && Before(key(x), key(s[0]))
    ensures SortedBy([x] + s, key)
  {
    var r := [x] + s;
    forall i, j | 0 <= i < j < |r| ensures Before(key(r[i]), key(r[j])) {
      if i == 0 {
        assert r[j] == s[j - 1];
        if j > 1 {
          assert Before(key(s[0]), key(s[j - 1]));
        }
      } else {
        assert r[i] == s[i - 1] && r[j] == s[j - 1];
      }
    }
  }

  lemma HeadBeforeInsert<T>(key: T -> Option<nat>, x: T, s: seq<T>, rest: seq<T>)
    requires s != [] && SortedBy(s, key) && !Before(key(x), key(s[0]))
    requires multiset(rest) == multiset(s[1..]) + multiset{x} && SortedBy(rest, key)
    ensures SortedBy([s[0]] + rest, key)
  {
    forall k | 0 <= k < |rest| ensures Before(key(s[0]), key(rest[k])) {
      assert rest[k] in multiset(rest);
      if rest[k] != x {
        assert rest[k] in multiset(s[1..]);
        var j :| 0 <= j < |s[1..]| && s[1..][j] == rest[k];
        assert s[j + 1] == rest[k];
      }
    }
    var r := [s[0]] + rest;
    forall i, j | 0 <= i < j < |r| ensures Before(key(r[i]), key(r[j])) {
      if i == 0 {
        assert r[j] == rest[j - 1];
      } else {
        assert r[i] == rest[i - 1] && r[j] == rest[j - 1];
      }
    }
  }

  /** The whole of s, largest key first and missing keys last. */
  function SortDesc<T>(s: seq<T>, key: T -> Option<nat>): (r: seq<T>)
    ensures multiset(r) == multiset(s) && |r| == |s|
    ensures SortedBy(r, key)
  {
    if s == [] then []
    else
      assert s == [s[0]] + s[1..];
      Insert(s[0], SortDesc(s[1..], key), key)
  }

  /**
   * The first n elements of s in ranking order: as many as there are (up to n),
   * drawn from s, ordered, and none left out that ranks above one kept.
   */
  function Top<T>(s: seq<T>, n: nat, key: T -> Option<nat>): (r: seq<T>)
    ensures |r| == Min(n, |s|)
    ensures multiset(r) <= multiset(s)
    ensures SortedBy(r, key)
    ensures forall i, x :: 0 <= i < |r| && x in multiset(s) - multiset(r) ==> Before(key(r[i]), key(x))
  {
    var sorted := SortDesc(s, key);
    var m := Min(n, |s|);
    TopOfSorted(sorted, m, key);
    sorted[..m]
  }

  lemma TopOfSorted<T>(sorted: seq<T>, m: nat, key: T -> Option<nat>)
    requires m <= |sorted| && SortedBy(sorted, key)
    ensures multiset(sorted[..m]) <= multiset(sorted)
    ensures forall i, x :: 0 <= i < m && x in multiset(sorted) - multiset(sorted[..m]) ==>
      Before(key(sorted[i]), key(x))
  {
    var front, back := sorted[..m], sorted[m..];
    assert sorted == front + back;
    assert multiset(sorted) == multiset(front) + multiset(back);
    forall i, x | 0 <= i < m && x in multiset(sorted) - multiset(front)
      ensures Before(key(sorted[i]), key(x))
    {
      assert x in multiset(back);
      var j :| 0 <= j < |back| && back[j] == x;
      assert sorted[m + j] == x;
    }
  }
}
