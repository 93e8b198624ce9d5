/** Removal of the selected rows of the file table: the rows of the
    selected cells, each once, are removed largest first, so that no removal
    shifts a row that is still to be removed. The table is any sequence;
    rows are named by their index. */
module Removal {

  /** The selected rows below n, largest first. */
  function Descending(D: set<nat>, n: nat): (r: seq<nat>)
    ensures |r| <= n
  {
    if n == 0 then [] else (if n - 1 in D then [n - 1] else []) + Descending(D, n - 1)
  }

  /** The first element of the order is the largest row of D below n, and
      the order goes on with the rows of D below that one. */
  lemma {:induction false} DescendingFirst(D: set<nat>, n: nat)
    requires |Descending(D, n)| > 0
    ensures var m := Descending(D, n)[0];
      m < n && m in D && Descending(D, n) == [m] + Descending(D, m) &&
      forall j :: m < j < n ==> j !in D
    decreases n
  {
    if n - 1 !in D {
      DescendingFirst(D, n - 1);
    }
  }

  /** An empty order means no row of D lies below n. */
  lemma {:induction false} DescendingEmpty(D: set<nat>, n: nat)
    requires Descending(D, n) == []
    ensures forall j :: j < n ==> j !in D
    decreases n
  {
    if n > 0 {
      DescendingEmpty(D, n - 1);
    }
  }

  /** The order holds exactly the rows of D below n, each once, largest
      first. */
  lemma {:induction false} DescendingSpec(D: set<nat>, n: nat)
    ensures forall j :: j in Descending(D, n) <==> j < n && j in D
    ensures forall k :: 0 <= k < |Descending(D, n)| - 1 ==> Descending(D, n)[k] > Descending(D, n)[k + 1]
    decreases n
  {
    if n > 0 {
      DescendingSpec(D, n - 1);
      var r := Descending(D, n - 1);
      if n - 1 in D && |r| > 0 {
        assert r[0] in r;
      }
    }
  }

  /** The rows lo .. hi - 1 that are not in D, in order. */
  function KeptBetween<T>(s: seq<T>, D: set<nat>, lo: nat, hi: nat): (r: seq<T>)
    requires hi <= |s|
    decreases hi
  {
    if hi <= lo then [] else KeptBetween(s, D, lo, hi - 1) + (if hi - 1 in D then [] else [s[hi - 1]])
  }

  /** The table without the rows in D. */
  function Without<T>(s: seq<T>, D: set<nat>): seq<T> {
    KeptBetween(s, D, 0, |s|)
  }

  /** A stretch holding no selected row is kept whole. */
  lemma {:induction false} KeptUnselected<T>(s: seq<T>, D: set<nat>, lo: nat, hi: nat)
    requires lo <= hi <= |s|
    requires forall j :: lo <= j < hi ==> j !in D
    ensures KeptBetween(s, D, lo, hi) == s[lo..hi]
    decreases hi
  {
    if lo < hi {
      KeptUnselected(s, D, lo, hi - 1);
      assert s[lo..hi] == s[lo..hi - 1] + [s[hi - 1]];
    }
  }

  lemma {:induction false} KeptSplit<T>(s: seq<T>, D: set<nat>, lo: nat, mid: nat, hi: nat)
    requires lo <= mid <= hi <= |s|
    ensures KeptBetween(s, D, lo, hi) == KeptBetween(s, D, lo, mid) + KeptBetween(s, D, mid, hi)
    decreases hi
  {
    if mid < hi {
      KeptSplit(s, D, lo, mid, hi - 1);
    }
  }

  /** The rows from a selected `row` on, when no row of D lies between it
      and `bound`: the stretch up to `bound` whole, then the filtered rest. */
  lemma KeptFromRow<T>(s: seq<T>, D: set<nat>, row: nat, bound: nat, n: nat)
    requires row < bound <= n <= |s| && row in D
    requires forall j :: row < j < bound ==> j !in D
    ensures KeptBetween(s, D, row, n) == s[row + 1..bound] + KeptBetween(s, D, bound, n)
  {
    var rest := KeptBetween(s, D, bound, n);
    KeptSplit(s, D, row, row + 1, n);
    KeptSplit(s, D, row + 1, bound, n);
    KeptUnselected(s, D, row + 1, bound);
    assert KeptBetween(s, D, row, row + 1) == KeptBetween(s, D, row, row) + [];
    calc {
      KeptBetween(s, D, row, n);
      KeptBetween(s, D, row, row + 1) + KeptBetween(s, D, row + 1, n);
      [] + (s[row + 1..bound] + rest);
      s[row + 1..bound] + rest;
    }
  }

  /** Removing position `row` of a table whose first `bound` rows are still
      the original ones. */
  lemma RemoveBelowBound<T>(s: seq<T>, rest: seq<T>, row: nat, bound: nat)
    requires row < bound <= |s|
    ensures var t := s[..bound] + rest;
      t[..row] + t[row + 1..] == s[..row] + (s[row + 1..bound] + rest)
  {
    var t := s[..bound] + rest;
    assert t[..row] == s[..row];
    assert t[row + 1..] == s[row + 1..bound] + rest;
  }

  /** One removal step: removing selected row `row` from a table whose rows
      from `bound` on are already filtered, when no row of D lies between
      the two, leaves the rows from `row` on filtered. */
  lemma RemoveStep<T>(s: seq<T>, D: set<nat>, row: nat, bound: nat, n: nat)
    requires row < bound <= n <= |s| && row in D
    requires forall j :: row < j < bound ==> j !in D
    ensures var t := s[..bound] + KeptBetween(s, D, bound, n);
      t[..row] + t[row + 1..] == s[..row] + KeptBetween(s, D, row, n)
  {
    KeptFromRow(s, D, row, bound, n);
    RemoveBelowBound(s, KeptBetween(s, D, bound, n), row, bound);
  }

  /** Each selected row is removed once however often it was selected: the
      table shrinks by the number of distinct selected rows. */
  lemma {:induction false} WithoutLength<T>(s: seq<T>, D: set<nat>, n: nat)
    requires n <= |s|
    ensures |KeptBetween(s, D, 0, n)| + |Descending(D, n)| == n
    decreases n
  {
    if n > 0 {
      WithoutLength(s, D, n - 1);
    }
  }

  /** Rows that were not selected keep their order. */
  lemma WithoutNothing<T>(s: seq<T>)
    ensures Without(s, {}) == s
  {
    KeptUnselected(s, {}, 0, |s|);
  }
}
