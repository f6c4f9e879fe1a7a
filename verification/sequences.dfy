/**
 * Generic sequence operations shared by the merger, the duplicate detector
 * and the validator: searching for the first match, filtering (pandas'
 * boolean-mask selection and `dropna`) and first-occurrence deduplication
 * (`dict.fromkeys` and `Series.unique`).
 */
module Sequences {
  import opened Wrappers

  /** No value occurs twice. */
  predicate NoDuplicates<T(==)>(s: seq<T>)
  {
    forall i, j :: 0 <= i < j < |s| ==> s[i] != s[j]
  }

  /** Two duplicate-free sequences with no common element concatenate to a duplicate-free one. */
  lemma NoDuplicatesConcat<T>(a: seq<T>, b: seq<T>)
    requires NoDuplicates(a) && NoDuplicates(b)
    requires forall x :: x in a ==> x !in b
    ensures NoDuplicates(a + b)
  {
    forall i, j | 0 <= i < j < |a + b| ensures (a + b)[i] != (a + b)[j] {
      if i < |a| <= j {
        assert (a + b)[i] in a && (a + b)[j] in b;
      }
    }
  }

  /** The index of the first element satisfying `p`, if there is one. */
  function FirstWhere<T>(s: seq<T>, p: T -> bool): (r: Option<nat>)
    ensures r.None? <==> forall j :: 0 <= j < |s| ==> !p(s[j])
    ensures r.Some? ==> r.value < |s| && p(s[r.value]) && forall j :: 0 <= j < r.value ==> !p(s[j])
  {
    if |s| == 0 then None
    else if p(s[0]) then Some(0)
    else match FirstWhere(s[1..], p)
      case None => None
      case Some(i) => Some(i + 1)
  }

  /** Python's `list.index`: the position of the first occurrence of `x`. */
  function FirstIndex<T(==)>(s: seq<T>, x: T): (r: nat)
    requires x in s
    ensures r < |s| && s[r] == x
    ensures forall j :: 0 <= j < r ==> s[j] != x
  {
    FirstWhere(s, y => y == x).value
  }

  /** The first occurrence of `x` in `a + b` lies in `a` when `x` is in `a`, else in `b`. */
  lemma FirstIndexAppend<T>(a: seq<T>, b: seq<T>, x: T)
    requires x in a + b
    ensures x in a ==> FirstIndex(a + b, x) == FirstIndex(a, x)
    ensures x !in a ==> FirstIndex(a + b, x) == |a| + FirstIndex(b, x)
  {
    var k := FirstIndex(a + b, x);
    if x in a {
      var m := FirstIndex(a, x);
      assert (a + b)[m] == x;
    } else {
      assert x in b;
      var m := FirstIndex(b, x);
      assert (a + b)[|a| + m] == x;
    }
  }

  /** The elements of `s` that satisfy `p`, in their original order. */
  function Filter<T(==)>(s: seq<T>, p: T -> bool): (r: seq<T>)
    ensures |r| <= |s|
  {
    if |s| == 0 then []
    else Filter(s[..|s| - 1], p) + (if p(s[|s| - 1]) then [s[|s| - 1]] else [])
  }

  /** The filtered sequence holds exactly the elements of `s` that satisfy `p`. */
  lemma {:induction false} FilterMembers<T>(s: seq<T>, p: T -> bool)
    ensures forall i :: 0 <= i < |Filter(s, p)| ==> Filter(s, p)[i] in s && p(Filter(s, p)[i])
    ensures forall i :: 0 <= i < |s| && p(s[i]) ==> s[i] in Filter(s, p)
    decreases |s|
  {
    if |s| > 0 {
      var s', l := s[..|s| - 1], s[|s| - 1];
      FilterMembers(s', p);
      var r := Filter(s, p);
      var tail := if p(l) then [l] else [];
      assert r == Filter(s', p) + tail;
      forall i | 0 <= i < |r| ensures r[i] in s && p(r[i]) {
        if i < |Filter(s', p)| {
          assert r[i] == Filter(s', p)[i];
        }
      }
      forall i | 0 <= i < |s| && p(s[i]) ensures s[i] in r {
        if i < |s'| {
          assert s[i] == s'[i];
        }
      }
    }
  }

  /** Filtering one element keeps it exactly when it satisfies `p`. */
  lemma FilterSingleton<T>(x: T, p: T -> bool)
    ensures Filter([x], p) == if p(x) then [x] else []
  {
    assert [x][..0] == [];
  }

  /** Filtering a concatenation filters each part. */
  lemma {:induction false} FilterConcat<T>(a: seq<T>, b: seq<T>, p: T -> bool)
    ensures Filter(a + b, p) == Filter(a, p) + Filter(b, p)
    decreases |b|
  {
    if |b| == 0 {
      assert a + b == a;
    } else {
      var b' := b[..|b| - 1];
      assert (a + b)[..|a + b| - 1] == a + b';
      FilterConcat(a, b', p);
    }
  }

  /** Filtering keeps every occurrence of a value it accepts and none of a value it rejects. */
  lemma {:induction false} FilterCount<T>(s: seq<T>, p: T -> bool, x: T)
    ensures multiset(Filter(s, p))[x] == if p(x) then multiset(s)[x] else 0
    decreases |s|
  {
    if |s| > 0 {
      var s' := s[..|s| - 1];
      assert s == s' + [s[|s| - 1]];
      FilterCount(s', p, x);
    }
  }

  /**
   * Filtering by a property of values keeps the order of first occurrences:
   * among surviving values, `x` first appears before `y` in the filtered
   * sequence exactly when it does in the original.
   */
  lemma {:induction false} FilterKeepsFirstOccurrenceOrder<T>(s: seq<T>, p: T -> bool, x: T, y: T)
    requires x in s && y in s && p(x) && p(y)
    ensures x in Filter(s, p) && y in Filter(s, p)
    ensures FirstIndex(Filter(s, p), x) < FirstIndex(Filter(s, p), y) <==> FirstIndex(s, x) < FirstIndex(s, y)
    decreases |s|
  {
    FilterMembers(s, p);
    var n := |s|;
    var s', l := s[..n - 1], s[n - 1];
    var f' := Filter(s', p);
    var tail := if p(l) then [l] else [];
    FilterMembers(s', p);
    assert s == s' + [l];
    assert Filter(s, p) == f' + tail;
    if x in s' && y in s' {
      FilterKeepsFirstOccurrenceOrder(s', p, x, y);
    } else if x !in s' {
      assert x == l && x !in f';
    } else {
      assert y == l && y !in f';
    }
    FirstIndexAppend(f', tail, x);
    FirstIndexAppend(s', [l], x);
    FirstIndexAppend(f', tail, y);
    FirstIndexAppend(s', [l], y);
  }

  /**
   * The distinct values of `s`, each at the position of its first
   * occurrence (`list(dict.fromkeys(s))`, `Series.unique()`).
   */
  function Dedup<T(==)>(s: seq<T>): (r: seq<T>)
    ensures forall i :: 0 <= i < |r| ==> r[i] in s
    ensures forall i :: 0 <= i < |s| ==> s[i] in r
    ensures NoDuplicates(r)
  {
    if |s| == 0 then []
    else
      var d := Dedup(s[..|s| - 1]);
      if s[|s| - 1] in d then d else d + [s[|s| - 1]]
  }

  /** Deduplication lists values in the order of their first occurrence. */
  lemma {:induction false} DedupFirstOccurrenceOrder<T>(s: seq<T>, i: nat, j: nat)
    requires i < j < |Dedup(s)|
    ensures FirstIndex(s, Dedup(s)[i]) < FirstIndex(s, Dedup(s)[j])
    decreases |s|
  {
    var n := |s|;
    var s', l := s[..n - 1], s[n - 1];
    var d := Dedup(s');
    assert s == s' + [l];
    var x, y := Dedup(s)[i], Dedup(s)[j];
    assert x in s' by { assert x in d || i < |d|; }
    FirstIndexAppend(s', [l], x);
    if j < |d| {
      assert x == d[i] && y == d[j];
      DedupFirstOccurrenceOrder(s', i, j);
      FirstIndexAppend(s', [l], y);
    } else {
      assert y == l && l !in d && l !in s';
      FirstIndexAppend(s', [l], y);
    }
  }

  /** A sequence without repeated values is its own deduplication. */
  lemma {:induction false} DedupOfDistinct<T>(s: seq<T>)
    requires NoDuplicates(s)
    ensures Dedup(s) == s
    decreases |s|
  {
    if |s| > 0 {
      var s' := s[..|s| - 1];
      DedupOfDistinct(s');
      assert s[|s| - 1] !in s';
    }
  }
}
