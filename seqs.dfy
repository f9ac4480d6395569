/** Generic sequence operations that the data-frame expressions of the
    application are made of: filtering by a boolean mask, summing a column,
    and sorting on an integer key. */
module Seqs {

  /** `a` is obtained from `b` by deleting elements, keeping the order of the rest. */
  ghost predicate IsSubsequence<T>(a: seq<T>, b: seq<T>)
    decreases |b|
  {
    a == [] || (b != [] && ((a[0] == b[0] && IsSubsequence(a[1..], b[1..])) || IsSubsequence(a, b[1..])))
  }

  /** The rows of `s` for which the mask `p` holds, in their original order
      (the data-frame expression `s[p(s)]`). */
  function Keep<T>(s: seq<T>, p: T -> bool): (r: seq<T>)
    ensures |r| <= |s|
    ensures forall x :: x in r ==> x in s && p(x)
  {
    if s == [] then []
    else if p(s[0]) then [s[0]] + Keep(s[1..], p)
    else Keep(s[1..], p)
  }

  lemma {:induction false} KeepIsSubsequence<T>(s: seq<T>, p: T -> bool)
    ensures IsSubsequence(Keep(s, p), s)
  {
    if s != [] {
      KeepIsSubsequence(s[1..], p);
      var rest := Keep(s[1..], p);
      if p(s[0]) {
        assert Keep(s, p) == [s[0]] + rest;
        assert ([s[0]] + rest)[1..] == rest;
      } else {
        assert Keep(s, p) == rest;
      }
    }
  }

  /** Every element occurs in the filtered sequence exactly as often as in the
      input when it passes the mask, and not at all otherwise. */
  lemma {:induction false} KeepCount<T>(s: seq<T>, p: T -> bool)
    ensures forall x :: multiset(Keep(s, p))[x] == if p(x) then multiset(s)[x] else 0
  {
    if s == [] {
    } else {
      KeepCount(s[1..], p);
      assert s == [s[0]] + s[1..];
      assert multiset(s) == multiset{s[0]} + multiset(s[1..]);
      if p(s[0]) {
        assert multiset(Keep(s, p)) == multiset{s[0]} + multiset(Keep(s[1..], p));
      }
    }
  }

  lemma {:induction false} KeepIdempotent<T>(s: seq<T>, p: T -> bool)
    ensures Keep(Keep(s, p), p) == Keep(s, p)
  {
    if s != [] {
      KeepIdempotent(s[1..], p);
      if p(s[0]) {
        var r := [s[0]] + Keep(s[1..], p);
        assert r[0] == s[0] && r[1..] == Keep(s[1..], p);
      }
    }
  }

  /** The sum of the column `w` over the rows of `s`. */
  function SumOf<T>(s: seq<T>, w: T -> int): int
  {
    if s == [] then 0 else w(s[0]) + SumOf(s[1..], w)
  }

  lemma {:induction false} SumOfNonNegative<T>(s: seq<T>, w: T -> int)
    requires forall x :: x in s ==> w(x) >= 0
    ensures SumOf(s, w) >= 0
  {
    if s != [] {
      SumOfNonNegative(s[1..], w);
    }
  }

  /** The elements of `s` are in non-decreasing order of `key`. */
  ghost predicate SortedBy<T>(s: seq<T>, key: T -> int)
  {
    forall i, j :: 0 <= i < j < |s| ==> key(s[i]) <= key(s[j])
  }

  /** No two elements of `s` agree on `f`. */
  ghost predicate DistinctBy<T, K>(s: seq<T>, f: T -> K)
  {
    forall i, j :: 0 <= i < j < |s| ==> f(s[i]) != f(s[j])
  }

  lemma DistinctByCons<T, K>(x: T, s: seq<T>, f: T -> K)
    requires DistinctBy(s, f)
    requires forall y :: y in s ==> f(y) != f(x)
    ensures DistinctBy([x] + s, f)
  {
    var t := [x] + s;
    forall i, j | 0 <= i < j < |t| ensures f(t[i]) != f(t[j]) {
      assert t[j] == s[j - 1] && t[j] in s;
      if i > 0 {
        assert t[i] == s[i - 1];
      }
    }
  }

  /** Places `x` in front of the first element of the sorted `s` whose key is
      not smaller, so that it stays behind every element with a smaller key. */
  function Insert<T(==)>(x: T, s: seq<T>, key: T -> int): (r: seq<T>)
    ensures multiset(r) == multiset(s) + multiset{x}
    ensures SortedBy(s, key) ==> SortedBy(r, key)
  {
    if s == [] || key(x) <= key(s[0]) then
      var r := [x] + s;
      assert SortedBy(s, key) ==> SortedBy(r, key) by {
        if SortedBy(s, key) {
          forall i, j | 0 <= i < j < |r| ensures key(r[i]) <= key(r[j]) {
            if i > 0 {
              assert r[i] == s[i - 1] && r[j] == s[j - 1];
            } else {
              assert r[j] == s[j - 1];
            }
          }
        }
      }
      r
    else
      var tail := Insert(x, s[1..], key);
      var r := [s[0]] + tail;
      assert s == [s[0]] + s[1..];
      assert SortedBy(s, key) ==> SortedBy(r, key) by {
        if SortedBy(s, key) {
          forall i, j | 0 <= i < j < |r| ensures key(r[i]) <= key(r[j]) {
            if i == 0 {
              assert r[j] in multiset(tail);
              assert r[j] == x || r[j] in s[1..];
            }
          }
        }
      }
      r
  }

  /** A stable sort of `s` in non-decreasing order of `key` (insertion sort). */
  function SortBy<T(==)>(s: seq<T>, key: T -> int): (r: seq<T>)
    ensures SortedBy(r, key)
    ensures multiset(r) == multiset(s)
    ensures |r| == |s|
  {
    if s == [] then []
    else
      assert s == [s[0]] + s[1..];
      Insert(s[0], SortBy(s[1..], key), key)
  }

  lemma {:induction false} InsertSum<T>(x: T, s: seq<T>, key: T -> int, w: T -> int)
    ensures SumOf(Insert(x, s, key), w) == w(x) + SumOf(s, w)
  {
    if s != [] && key(x) > key(s[0]) {
      InsertSum(x, s[1..], key, w);
    }
  }

  /** Sorting does not change the sum of any column. */
  lemma {:induction false} SortBySum<T>(s: seq<T>, key: T -> int, w: T -> int)
    ensures SumOf(SortBy(s, key), w) == SumOf(s, w)
  {
    if s != [] {
      SortBySum(s[1..], key, w);
      InsertSum(s[0], SortBy(s[1..], key), key, w);
    }
  }

  lemma {:induction false} InsertDistinct<T, K>(x: T, s: seq<T>, key: T -> int, f: T -> K)
    requires DistinctBy(s, f)
    requires forall y :: y in s ==> f(y) != f(x)
    ensures DistinctBy(Insert(x, s, key), f)
  {
    if s == [] || key(x) <= key(s[0]) {
      DistinctByCons(x, s, f);
    } else {
      InsertDistinct(x, s[1..], key, f);
      var tail := Insert(x, s[1..], key);
      forall y | y in tail ensures f(y) != f(s[0]) {
        assert y in multiset(tail);
        assert y == x || y in s[1..];
        if y != x {
          var k :| 1 <= k < |s| && s[k] == y;
          assert s[1..][k - 1] == y;
        }
      }
      DistinctByCons(s[0], tail, f);
    }
  }

  /** Sorting keeps distinct elements distinct. */
  lemma {:induction false} SortByDistinct<T, K>(s: seq<T>, key: T -> int, f: T -> K)
    requires DistinctBy(s, f)
    ensures DistinctBy(SortBy(s, key), f)
  {
    if s != [] {
      assert DistinctBy(s[1..], f) by {
        forall i, j | 0 <= i < j < |s[1..]| ensures f(s[1..][i]) != f(s[1..][j]) {
          assert s[1..][i] == s[i + 1] && s[1..][j] == s[j + 1];
        }
      }
      SortByDistinct(s[1..], key, f);
      var sorted := SortBy(s[1..], key);
      forall y | y in sorted ensures f(y) != f(s[0]) {
        assert y in multiset(s[1..]);
        var k :| 0 <= k < |s[1..]| && s[1..][k] == y;
        assert s[k + 1] == y;
      }
      InsertDistinct(s[0], sorted, key, f);
    }
  }

  lemma SortByMembers<T>(s: seq<T>, key: T -> int)
    ensures forall x :: x in SortBy(s, key) <==> x in s
  {
    var r := SortBy(s, key);
    forall x ensures x in r <==> x in s {
      assert x in r <==> x in multiset(r);
      assert x in s <==> x in multiset(s);
    }
  }
}
