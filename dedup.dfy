/**
 * The distinct present values of a column, in the order in which each first
 * appears: what a column's non-missing unique values are.
 */
module Dedup {
  import opened Wrappers

  predicate NoDuplicates<T(==)>(s: seq<T>)
  {
    forall i, j :: 0 <= i < j < |s| ==> s[i] != s[j]
  }

  /** The position of the first occurrence of v in s. */
  function FirstIndex<T(==)>(s: seq<T>, v: T): (k: nat)
    requires v in s
    ensures k < |s| && s[k] == v && v !in s[..k]
  {
    if s[0] == v then 0
    else
      var k := FirstIndex(s[1..], v) + 1;
      assert s[..k] == [s[0]] + s[1..][..k - 1];
      k
  }

  lemma FirstIndexOfPrefix<T>(s: seq<T>, n: nat, v: T)
    requires n <= |s| && v in s[..n]
    ensures v in s && FirstIndex(s, v) == FirstIndex(s[..n], v)
  {
    var k := FirstIndex(s[..n], v);
    assert s[..n][..k] == s[..k];
  }

  /**
   * The values x with Some(x) in s, each once, ordered by where they first
   * occur in s.
   */
  function DistinctPresent<T(==)>(s: seq<Option<T>>): (r: seq<T>)
    ensures NoDuplicates(r)
    ensures forall i :: 0 <= i < |r| ==> Some(r[i]) in s
    ensures forall k :: 0 <= k < |s| && s[k].Some? ==> s[k].value in r
    ensures forall i, j :: 0 <= i < j < |r| ==> FirstIndex(s, Some(r[i])) < FirstIndex(s, Some(r[j]))
  {
    if s == [] then []
    else
      var d := DistinctPresent(s[..|s| - 1]);
      ExtendDistinct(s, d);
      Extend(d, s[|s| - 1])
  }

  /** One more cell: a new present value goes last, anything else changes nothing. */
  function Extend<T(==)>(d: seq<T>, c: Option<T>): seq<T>
  {
    match c
    case None => d
    case Some(x) => if x in d then d else d + [x]
  }

  ghost predicate DistinctOf<T>(s: seq<Option<T>>, r: seq<T>)
  {
    && NoDuplicates(r)
    && (forall i :: 0 <= i < |r| ==> Some(r[i]) in s)
    && (forall k :: 0 <= k < |s| && s[k].Some? ==> s[k].value in r)
    && (forall i, j :: 0 <= i < j < |r| ==> FirstIndex(s, Some(r[i])) < FirstIndex(s, Some(r[j])))
  }

  lemma ExtendDistinct<T>(s: seq<Option<T>>, d: seq<T>)
    requires s != [] && DistinctOf(s[..|s| - 1], d)
    ensures DistinctOf(s, Extend(d, s[|s| - 1]))
  {
    KeptFirstIndices(s);
    var last := s[|s| - 1];
    if last.Some? && last.value !in d {
      AppendNew(s, d);
    } else {
      KeepOld(s, d);
    }
  }

  /** Values already seen in the prefix keep their first positions in s. */
  lemma KeptFirstIndices<T>(s: seq<Option<T>>)
    requires s != []
    ensures forall v :: v in s[..|s| - 1] ==> v in s && FirstIndex(s, v) == FirstIndex(s[..|s| - 1], v)
  {
    forall v | v in s[..|s| - 1] ensures v in s && FirstIndex(s, v) == FirstIndex(s[..|s| - 1], v) {
      FirstIndexOfPrefix(s, |s| - 1, v);
    }
  }

  lemma KeepOld<T>(s: seq<Option<T>>, d: seq<T>)
    requires s != [] && DistinctOf(s[..|s| - 1], d)
    requires s[|s| - 1].Some? ==> s[|s| - 1].value in d
    requires forall v :: v in s[..|s| - 1] ==> v in s && FirstIndex(s, v) == FirstIndex(s[..|s| - 1], v)
    ensures DistinctOf(s, d)
  {
    var init := s[..|s| - 1];
    forall k | 0 <= k < |s| && s[k].Some? ensures s[k].value in d {
      if k < |s| - 1 {
        assert init[k] == s[k];
      }
    }
  }

  lemma AppendNew<T>(s: seq<Option<T>>, d: seq<T>)
    requires s != [] && DistinctOf(s[..|s| - 1], d)
    requires s[|s| - 1].Some? && s[|s| - 1].value !in d
    ensures DistinctOf(s, d + [s[|s| - 1].value])
  {
    var init := s[..|s| - 1];
    var x := s[|s| - 1].value;
    assert s == init + [Some(x)];
    LastIsNew(init, d, x);
    AppendCovers(init, d, x);
    AppendOrdered(s, d, x, d + [x]);
  }

  /** A value absent from the distinct values of a prefix does not occur in it. */
  lemma LastIsNew<T>(init: seq<Option<T>>, d: seq<T>, x: T)
    requires forall k :: 0 <= k < |init| && init[k].Some? ==> init[k].value in d
    requires x !in d
    ensures Some(x) !in init && NoDuplicates(d) ==> NoDuplicates(d + [x])
  {
    forall k | 0 <= k < |init| ensures init[k] != Some(x) {
      if init[k].Some? {
        assert init[k].value in d;
      }
    }
  }

  lemma AppendCovers<T>(init: seq<Option<T>>, d: seq<T>, x: T)
    requires forall k :: 0 <= k < |init| && init[k].Some? ==> init[k].value in d
    ensures forall k :: 0 <= k < |init| + 1 && (init + [Some(x)])[k].Some? ==>
      (init + [Some(x)])[k].value in d + [x]
  {
    forall k | 0 <= k < |init| + 1 && (init + [Some(x)])[k].Some?
      ensures (init + [Some(x)])[k].value in d + [x]
    {
      if k < |init| {
        assert (init + [Some(x)])[k] == init[k];
      }
    }
  }

  /** A value that does not occur before the end first occurs at the end. */
  lemma LastFirstIndex<T>(s: seq<T>)
    requires s != [] && s[|s| - 1] !in s[..|s| - 1]
    ensures FirstIndex(s, s[|s| - 1]) == |s| - 1
  {
    assert forall j :: 0 <= j < |s| - 1 ==> s[..|s| - 1][j] == s[j];
  }

  lemma AppendOrdered<T>(s: seq<Option<T>>, d: seq<T>, x: T, r: seq<T>)
    requires s != [] && s[|s| - 1] == Some(x) && Some(x) !in s[..|s| - 1] && r == d + [x]
    requires forall i :: 0 <= i < |d| ==> Some(d[i]) in s[..|s| - 1]
    requires forall i, j :: 0 <= i < j < |d| ==>
      FirstIndex(s[..|s| - 1], Some(d[i])) < FirstIndex(s[..|s| - 1], Some(d[j]))
    ensures forall i :: 0 <= i < |r| ==> Some(r[i]) in s
    ensures forall i, j :: 0 <= i < j < |r| ==> FirstIndex(s, Some(r[i])) < FirstIndex(s, Some(r[j]))
  {
    LastFirstIndex(s);
    var ks := PrefixPositions(s, d);
    assert forall i, j :: 0 <= i < j < |d| ==> ks[i] < ks[j];
    OrderedConcat(s, d, x, r, ks);
  }

  /** The first positions in s of the values d, which occur before its end. */
  lemma PrefixPositions<T>(s: seq<Option<T>>, d: seq<T>) returns (ks: seq<nat>)
    requires s != [] && forall i :: 0 <= i < |d| ==> Some(d[i]) in s[..|s| - 1]
    ensures |ks| == |d|
    ensures forall i :: 0 <= i < |d| ==>
      Some(d[i]) in s && ks[i] == FirstIndex(s, Some(d[i])) == FirstIndex(s[..|s| - 1], Some(d[i])) < |s| - 1
  {
    ks := [];
    for n := 0 to |d|
      invariant |ks| == n
      invariant forall i :: 0 <= i < n ==>
        Some(d[i]) in s && ks[i] == FirstIndex(s, Some(d[i])) == FirstIndex(s[..|s| - 1], Some(d[i])) < |s| - 1
    {
      FirstIndexOfPrefix(s, |s| - 1, Some(d[n]));
      ks := ks + [FirstIndex(s, Some(d[n]))];
    }
  }

  lemma OrderedConcat<T>(s: seq<Option<T>>, d: seq<T>, x: T, r: seq<T>, ks: seq<nat>)
    requires s != [] && s[|s| - 1] == Some(x) && r == d + [x] && |ks| == |d|
    requires FirstIndex(s, Some(x)) == |s| - 1
    requires forall i :: 0 <= i < |d| ==> Some(d[i]) in s && ks[i] == FirstIndex(s, Some(d[i]))
    requires forall i, j :: 0 <= i < j < |d| ==> ks[i] < ks[j]
    requires forall i :: 0 <= i < |d| ==> ks[i] < |s| - 1
    ensures forall i :: 0 <= i < |r| ==> Some(r[i]) in s
    ensures forall i, j :: 0 <= i < j < |r| ==> FirstIndex(s, Some(r[i])) < FirstIndex(s, Some(r[j]))
  {
    forall i | 0 <= i < |r| ensures Some(r[i]) in s {
      if i < |d| {
        assert r[i] == d[i];
      }
    }
    forall i, j | 0 <= i < j < |r| ensures FirstIndex(s, Some(r[i])) < FirstIndex(s, Some(r[j])) {
      assert r[i] == d[i];
      if j < |d| {
        assert r[j] == d[j];
      }
    }
  }

  lemma {:induction false} NoDuplicatesCount<T>(s: seq<T>, x: T)
    requires NoDuplicates(s)
    ensures multiset(s)[x] <= 1
  {
    if s != [] {
      assert s == [s[0]] + s[1..];
      NoDuplicatesCount(s[1..], x);
      if s[0] == x {
        assert x !in s[1..];
      }
    }
  }

  lemma RepeatCount<T>(s: seq<T>, i: nat, j: nat)
    requires i < j < |s| && s[i] == s[j]
    ensures multiset(s)[s[i]] >= 2
  {
    assert s == s[..j] + [s[j]] + s[j + 1..];
    assert s[..j][i] == s[i];
  }

  lemma DrawnFrom<T>(s: seq<T>, r: seq<T>)
    requires multiset(r) <= multiset(s)
    ensures forall i :: 0 <= i < |r| ==> r[i] in s
  {
    forall i | 0 <= i < |r| ensures r[i] in s {
      assert r[i] in multiset(r);
    }
  }

  /** Drawing elements from a sequence without repeats cannot create repeats. */
  lemma SubMultisetNoDuplicates<T>(r: seq<T>, s: seq<T>)
    requires NoDuplicates(s) && multiset(r) <= multiset(s)
    ensures NoDuplicates(r)
  {
    forall i, j | 0 <= i < j < |r| ensures r[i] != r[j] {
      if r[i] == r[j] {
        RepeatCount(r, i, j);
        NoDuplicatesCount(s, r[i]);
      }
    }
  }
}
