/** Sequence operations the store and the services are built from: SQL `LIMIT/OFFSET`,
    an order-preserving filter (Rust's `filter(..).collect()`), reversal (for
    `ORDER BY .. DESC`) and the id lists the store keeps in creation order. */
module Sequences {

  function Min(a: int, b: int): int { if a <= b then a else b }

  /** The number of rows pages `1 .. page - 1` hold, `(page - 1) * limit`. */
  function PageOffset(page: nat, limit: nat): nat
    requires page >= 1
  {
    (page - 1) * limit
  }

  /** `LIMIT limit OFFSET offset` over rows already in order. */
  function LimitOffset<T>(rows: seq<T>, offset: nat, limit: nat): (r: seq<T>)
    ensures |r| <= limit
    ensures r != [] ==> offset + |r| <= |rows|
    ensures |r| == if offset >= |rows| then 0 else Min(limit, |rows| - offset)
    ensures forall i :: 0 <= i < |r| ==> r[i] == rows[offset + i]
  {
    if offset >= |rows| then [] else rows[offset .. offset + Min(limit, |rows| - offset)]
  }

  /** The rows in the opposite order. */
  function Reverse<T>(s: seq<T>): (r: seq<T>)
    ensures |r| == |s|
    ensures forall i :: 0 <= i < |s| ==> r[i] == s[|s| - 1 - i]
  {
    seq(|s|, i requires 0 <= i < |s| => s[|s| - 1 - i])
  }

  /** `ORDER BY .. DESC LIMIT limit OFFSET offset` over rows listed in ascending order:
      the page starts `offset` rows from the last one and walks backwards. */
  function ReversePage<T>(rows: seq<T>, offset: nat, limit: nat): (r: seq<T>)
    ensures |r| == if offset >= |rows| then 0 else Min(limit, |rows| - offset)
    ensures forall i :: 0 <= i < |r| ==> offset + i < |rows| && r[i] == rows[|rows| - 1 - (offset + i)]
  {
    LimitOffset(Reverse(rows), offset, limit)
  }

  /** The elements of `s` that satisfy `keep`, in their original order. */
  function Filter<T>(s: seq<T>, keep: T -> bool): (r: seq<T>)
    ensures |r| <= |s|
    ensures forall i :: 0 <= i < |r| ==> keep(r[i])
    ensures forall x :: x in r ==> x in s
  {
    if s == [] then []
    else if keep(s[0]) then [s[0]] + Filter(s[1..], keep)
    else Filter(s[1..], keep)
  }

  /** `a` is `b` with some elements left out and the rest in the same order. */
  predicate IsSubsequence<T(==)>(a: seq<T>, b: seq<T>)
    decreases |b|
  {
    if a == [] then true
    else if b == [] then false
    else (a[0] == b[0] && IsSubsequence(a[1..], b[1..])) || IsSubsequence(a, b[1..])
  }

  lemma {:induction false} FilterIsSubsequence<T>(s: seq<T>, keep: T -> bool)
    ensures IsSubsequence(Filter(s, keep), s)
    decreases |s|
  {
    if s != [] {
      FilterIsSubsequence(s[1..], keep);
      var rest := Filter(s[1..], keep);
      if keep(s[0]) {
        assert Filter(s, keep) == [s[0]] + rest;
        assert ([s[0]] + rest)[1..] == rest;
      } else {
        assert Filter(s, keep) == rest;
        if rest != [] {
          assert IsSubsequence(rest, s[1..]);
        }
      }
    }
  }

  /** An element is kept exactly when it occurs in `s` and satisfies `keep`. */
  lemma {:induction false} FilterMembers<T>(s: seq<T>, keep: T -> bool, x: T)
    ensures x in Filter(s, keep) <==> x in s && keep(x)
    decreases |s|
  {
    if s != [] {
      FilterMembers(s[1..], keep, x);
      assert x in s <==> x == s[0] || x in s[1..];
    }
  }

  /** Ids strictly ascending: no id occurs twice. */
  ghost predicate Increasing(ids: seq<int>) {
    forall i, j :: 0 <= i < j < |ids| ==> ids[i] < ids[j]
  }

  /** A subsequence of an ascending list is ascending. */
  lemma {:induction false} SubsequenceIncreasing(a: seq<int>, b: seq<int>)
    requires IsSubsequence(a, b) && Increasing(b)
    ensures Increasing(a)
    ensures forall x :: x in a ==> x in b
    decreases |b|
  {
    if a != [] {
      if a[0] == b[0] && IsSubsequence(a[1..], b[1..]) {
        SubsequenceIncreasing(a[1..], b[1..]);
        forall j | 0 < j < |a| ensures a[0] < a[j] {
          assert a[j] == a[1..][j - 1];
          assert a[j] in a[1..];
          var k :| 0 <= k < |b[1..]| && b[1..][k] == a[j];
          assert b[k + 1] == a[j];
        }
        forall x | x in a ensures x in b {
          if x != a[0] { assert x in a[1..]; }
        }
      } else {
        SubsequenceIncreasing(a, b[1..]);
      }
    }
  }

  /** The ids of `ids` that are still keys of the table, in their order. */
  function KeepOnly(ids: seq<int>, keys: set<int>): seq<int> {
    Filter(ids, x => x in keys)
  }

  /** Keeping only the ids in `keys` keeps the list ascending and its contents exact. */
  lemma KeepIds(ids: seq<int>, keys: set<int>)
    requires Increasing(ids)
    ensures Increasing(KeepOnly(ids, keys))
    ensures forall x :: x in KeepOnly(ids, keys) <==> x in ids && x in keys
  {
    FilterIsSubsequence(ids, x => x in keys);
    SubsequenceIncreasing(Filter(ids, x => x in keys), ids);
    forall x ensures x in Filter(ids, x => x in keys) <==> x in ids && x in keys {
      FilterMembers(ids, x => x in keys, x);
    }
  }

  /** An ascending list and the set of its elements have the same size. */
  lemma {:induction false} IncreasingCard(ids: seq<int>, keys: set<int>)
    requires Increasing(ids)
    requires forall k :: k in keys <==> k in ids
    ensures |keys| == |ids|
    decreases |ids|
  {
    if ids == [] {
      forall k ensures k !in keys {
        assert k !in ids;
      }
      assert keys == {};
    } else {
      var rest := keys - {ids[0]};
      forall k ensures k in rest <==> k in ids[1..] {
        if k in ids[1..] {
          var j :| 0 <= j < |ids[1..]| && ids[1..][j] == k;
          assert ids[j + 1] == k;
        }
        assert k in ids <==> k == ids[0] || k in ids[1..];
      }
      IncreasingCard(ids[1..], rest);
    }
  }
}
