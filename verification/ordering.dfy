/**
 * Python's `list.sort(key=...)` and `sorted(...)` on string keys: a stable
 * sort under the code-point lexicographic order of `str`. The order is
 * modelled by insertion from the right, which moves an element left only past
 * elements whose key is strictly greater; this is the behaviour of any stable
 * sort.
 */
module Ordering {
  import opened Sequences

  /** Python's `a <= b` on `str`: lexicographic by code point, a prefix first. */
  predicate LexLe(a: string, b: string)
    decreases |a|
  {
    |a| == 0 || (|b| > 0 && (a[0] < b[0] || (a[0] == b[0] && LexLe(a[1..], b[1..]))))
  }

  lemma {:induction false} LexLeReflexive(a: string)
    ensures LexLe(a, a)
    decreases |a|
  {
    if |a| > 0 {
      LexLeReflexive(a[1..]);
    }
  }

  lemma {:induction false} LexLeTotal(a: string, b: string)
    ensures LexLe(a, b) || LexLe(b, a)
    decreases |a|
  {
    if |a| > 0 && |b| > 0 && a[0] == b[0] {
      LexLeTotal(a[1..], b[1..]);
    }
  }

  lemma {:induction false} LexLeTransitive(a: string, b: string, c: string)
    requires LexLe(a, b) && LexLe(b, c)
    ensures LexLe(a, c)
    decreases |a|
  {
    if |a| > 0 && a[0] == b[0] && b[0] == c[0] {
      LexLeTransitive(a[1..], b[1..], c[1..]);
    }
  }

  lemma {:induction false} LexLeAntisymmetric(a: string, b: string)
    requires LexLe(a, b) && LexLe(b, a)
    ensures a == b
    decreases |a|
  {
    if |a| > 0 {
      LexLeAntisymmetric(a[1..], b[1..]);
      assert a == [a[0]] + a[1..] && b == [b[0]] + b[1..];
    }
  }

  /** Strings that agree up to position `k` compare as their characters at `k` do. */
  lemma {:induction false} LexLeFirstDifference(a: string, b: string, k: nat)
    requires k < |a| && k < |b| && a[..k] == b[..k] && a[k] != b[k]
    ensures LexLe(a, b) <==> a[k] < b[k]
    decreases k
  {
    if k > 0 {
      assert a[0] == a[..k][0];
      LexLeFirstDifference(a[1..], b[1..], k - 1);
      assert a[1..][..k - 1] == a[..k][1..];
      assert b[1..][..k - 1] == b[..k][1..];
    }
  }

  /** Every element's key is at most every later element's key. */
  ghost predicate SortedBy<T>(s: seq<T>, key: T -> string)
  {
    forall i, j :: 0 <= i < j < |s| ==> LexLe(key(s[i]), key(s[j]))
  }

  /** Inserts `x` after every element of `p` whose key is not greater than its own. */
  function InsertBy<T>(p: seq<T>, x: T, key: T -> string): (r: seq<T>)
    ensures |r| == |p| + 1
  {
    if |p| == 0 || LexLe(key(p[|p| - 1]), key(x)) then p + [x]
    else InsertBy(p[..|p| - 1], x, key) + [p[|p| - 1]]
  }

  /** The stable sort of `s` by `key`. */
  function SortBy<T>(s: seq<T>, key: T -> string): (r: seq<T>)
    ensures |r| == |s|
  {
    if |s| == 0 then [] else InsertBy(SortBy(s[..|s| - 1], key), s[|s| - 1], key)
  }

  /** Where insertion puts `x`: after the last element whose key does not exceed its own. */
  lemma {:induction false} InsertAt<T>(p: seq<T>, x: T, key: T -> string, j: nat)
    requires j <= |p|
    requires j == 0 || LexLe(key(p[j - 1]), key(x))
    requires forall m :: j <= m < |p| ==> !LexLe(key(p[m]), key(x))
    ensures InsertBy(p, x, key) == p[..j] + [x] + p[j..]
    decreases |p|
  {
    if j < |p| {
      var q, l := p[..|p| - 1], p[|p| - 1];
      assert InsertBy(p, x, key) == InsertBy(q, x, key) + [l] by {
        assert !LexLe(key(p[|p| - 1]), key(x));
      }
      assert j == 0 || LexLe(key(q[j - 1]), key(x)) by {
        if j > 0 {
          assert q[j - 1] == p[j - 1];
        }
      }
      assert forall m :: j <= m < |q| ==> !LexLe(key(q[m]), key(x)) by {
        forall m | j <= m < |q| ensures !LexLe(key(q[m]), key(x)) {
          assert q[m] == p[m];
        }
      }
      InsertAt(q, x, key, j);
      assert p[..j] == q[..j];
      assert p[j..] == q[j..] + [l];
    } else {
      assert p[..j] == p && p[j..] == [];
    }
  }

  lemma {:induction false} InsertByPermutation<T>(p: seq<T>, x: T, key: T -> string)
    ensures multiset(InsertBy(p, x, key)) == multiset(p) + multiset{x}
    decreases |p|
  {
    if |p| > 0 && !LexLe(key(p[|p| - 1]), key(x)) {
      var q := p[..|p| - 1];
      InsertByPermutation(q, x, key);
      assert p == q + [p[|p| - 1]];
    }
  }

  /** Sorting rearranges the elements: the result is a permutation of the input. */
  lemma {:induction false} SortByPermutation<T>(s: seq<T>, key: T -> string)
    ensures multiset(SortBy(s, key)) == multiset(s)
    decreases |s|
  {
    if |s| > 0 {
      var s', l := s[..|s| - 1], s[|s| - 1];
      var t := SortBy(s', key);
      assert SortBy(s, key) == InsertBy(t, l, key);
      SortByPermutation(s', key);
      InsertByPermutation(t, l, key);
      assert multiset(s) == multiset(s') + multiset{l} by {
        assert s == s' + [l];
      }
    }
  }

  lemma {:induction false} InsertBySorted<T>(p: seq<T>, x: T, key: T -> string)
    requires SortedBy(p, key)
    ensures SortedBy(InsertBy(p, x, key), key)
    decreases |p|
  {
    var r := InsertBy(p, x, key);
    if |p| == 0 {
    } else if LexLe(key(p[|p| - 1]), key(x)) {
      forall i, j | 0 <= i < j < |r|
        ensures LexLe(key(r[i]), key(r[j]))
      {
        if j == |p| && i < |p| - 1 {
          LexLeTransitive(key(p[i]), key(p[|p| - 1]), key(x));
        }
      }
    } else {
      var q, l := p[..|p| - 1], p[|p| - 1];
      var r' := InsertBy(q, x, key);
      InsertBySorted(q, x, key);
      InsertByPermutation(q, x, key);
      LexLeTotal(key(l), key(x));
      assert r == r' + [l];
      forall i, j | 0 <= i < j < |r|
        ensures LexLe(key(r[i]), key(r[j]))
      {
        if j == |r'| {
          assert r[i] in multiset(q) + multiset{x} by { assert r[i] in multiset(r'); }
          if r[i] != x {
            var m :| 0 <= m < |q| && q[m] == r[i];
            assert p[m] == r[i];
          }
        }
      }
    }
  }

  /** The sorted result is ordered by key. */
  lemma {:induction false} SortBySorted<T>(s: seq<T>, key: T -> string)
    ensures SortedBy(SortBy(s, key), key)
    decreases |s|
  {
    if |s| > 0 {
      SortBySorted(s[..|s| - 1], key);
      InsertBySorted(SortBy(s[..|s| - 1], key), s[|s| - 1], key);
    }
  }

  /** The test "has key `k`", the equivalence class that stability is about. */
  function KeyIs<T>(key: T -> string, k: string): T -> bool
  {
    y => key(y) == k
  }

  lemma {:induction false} InsertByStable<T>(p: seq<T>, x: T, key: T -> string, k: string)
    ensures Filter(InsertBy(p, x, key), KeyIs(key, k)) == Filter(p, KeyIs(key, k)) + Filter([x], KeyIs(key, k))
    decreases |p|
  {
    var f := KeyIs(key, k);
    if |p| == 0 || LexLe(key(p[|p| - 1]), key(x)) {
      assert InsertBy(p, x, key) == p + [x];
      FilterConcat(p, [x], f);
    } else {
      var q, l := p[..|p| - 1], p[|p| - 1];
      var r := InsertBy(q, x, key);
      assert InsertBy(p, x, key) == r + [l];
      InsertByStable(q, x, key, k);
      assert Filter(r + [l], f) == Filter(q, f) + Filter([x], f) + Filter([l], f) by {
        FilterConcat(r, [l], f);
      }
      assert Filter(p, f) == Filter(q, f) + Filter([l], f) by {
        FilterConcat(q, [l], f);
        assert p == q + [l];
      }
      var fq, fx, fl := Filter(q, f), Filter([x], f), Filter([l], f);
      StableSwap(l, x, key, k);
      assert fq + fx + fl == fq + (fx + fl) == fq + (fl + fx) == fq + fl + fx;
    }
  }

  /** An element with a greater key than `x` never shares `x`'s key, so the two commute under the filter. */
  lemma StableSwap<T>(l: T, x: T, key: T -> string, k: string)
    requires !LexLe(key(l), key(x))
    ensures Filter([x], KeyIs(key, k)) + Filter([l], KeyIs(key, k)) == Filter([l], KeyIs(key, k)) + Filter([x], KeyIs(key, k))
  {
    LexLeReflexive(key(x));
    FilterSingleton(x, KeyIs(key, k));
    FilterSingleton(l, KeyIs(key, k));
  }

  /**
   * Sorting is stable: the elements sharing any one key keep their relative
   * order.
   */
  lemma {:induction false} SortByStable<T>(s: seq<T>, key: T -> string, k: string)
    ensures Filter(SortBy(s, key), KeyIs(key, k)) == Filter(s, KeyIs(key, k))
    decreases |s|
  {
    if |s| > 0 {
      var s', l := s[..|s| - 1], s[|s| - 1];
      var t, f := SortBy(s', key), KeyIs(key, k);
      assert SortBy(s, key) == InsertBy(t, l, key);
      SortByStable(s', key, k);
      InsertByStable(t, l, key, k);
      assert Filter(s, f) == Filter(s', f) + Filter([l], f) by {
        FilterConcat(s', [l], f);
        assert s == s' + [l];
      }
    }
  }

  /**
   * One step of the sort: moves `a[i]` left into the sorted prefix `a[..i]`,
   * shifting the elements with a greater key one place to the right.
   */
  method InsertInPlace<T>(a: array<T>, i: nat, key: T -> string)
    requires i < a.Length
    modifies a
    ensures a[..i + 1] == InsertBy(old(a[..i]), old(a[i]), key)
    ensures forall m :: i < m < a.Length ==> a[m] == old(a[m])
  {
    ghost var p := a[..i];
    var x := a[i];
    var j := i;
    while 0 < j && !LexLe(key(a[j - 1]), key(x))
      invariant 0 <= j <= i
      invariant forall m :: 0 <= m < j ==> a[m] == p[m]
      invariant forall m :: j < m <= i ==> a[m] == p[m - 1]
      invariant forall m :: i < m < a.Length ==> a[m] == old(a[m])
      invariant forall m :: j <= m < i ==> !LexLe(key(p[m]), key(x))
    {
      a[j] := a[j - 1];
      j := j - 1;
    }
    a[j] := x;
    InsertAt(p, x, key, j);
    Shifted(a[..i + 1], p, x, j);
  }

  /** A sequence holding `p[..j]`, then `x`, then `p[j..]` shifted one place, is that concatenation. */
  lemma Shifted<T>(s: seq<T>, p: seq<T>, x: T, j: nat)
    requires j <= |p| && |s| == |p| + 1
    requires forall m :: 0 <= m < j ==> s[m] == p[m]
    requires s[j] == x
    requires forall m :: j < m < |s| ==> s[m] == p[m - 1]
    ensures s == p[..j] + [x] + p[j..]
  {
  }

  /** Sorting one more element of `s` inserts it into the sorted prefix. */
  lemma SortByPrefix<T>(s: seq<T>, i: nat, key: T -> string)
    requires i < |s|
    ensures SortBy(s[..i + 1], key) == InsertBy(SortBy(s[..i], key), s[i], key)
  {
    assert s[..i + 1][..i] == s[..i];
  }

  /** `a.sort(key=key)`: sorts the array in place, stably. */
  method SortInPlace<T>(a: array<T>, key: T -> string)
    modifies a
    ensures a[..] == SortBy(old(a[..]), key)
  {
    ghost var s := a[..];
    var i := 0;
    while i < a.Length
      invariant 0 <= i <= a.Length
      invariant a[..i] == SortBy(s[..i], key)
      invariant forall m :: i <= m < a.Length ==> a[m] == s[m]
    {
      SortByPrefix(s, i, key);
      InsertInPlace(a, i, key);
      i := i + 1;
    }
    assert s[..a.Length] == s;
  }
}
