/** The greedy look-ahead batching of "upload all": table rows are walked in
    order and appended to the current batch; after appending row i the batch
    is handed over (flushed) when its size plus the size of row i + 1 is over
    500,000,000 bytes or when it already holds 100 rows. After the walk the
    remaining batch is always handed over, even when it is empty.

    Rows are identified by their index in the table; `sizes[i]` is the size
    recorded for row i. */
module BatchPlanner {
  import opened Text

  const ByteLimit: int := 500_000_000
  const CountLimit: nat := 100

  predicate InRange(sizes: seq<nat>, batch: seq<nat>) {
    forall k :: 0 <= k < |batch| ==> batch[k] < |sizes|
  }

  /** The summed size of the rows of a batch. */
  function Total(sizes: seq<nat>, batch: seq<nat>): nat
    requires InRange(sizes, batch)
    decreases |batch|
  {
    if batch == [] then 0 else Total(sizes, batch[..|batch| - 1]) + sizes[batch[|batch| - 1]]
  }

  /** The indices lo, lo + 1, ..., hi - 1. */
  function Range(lo: nat, hi: nat): (r: seq<nat>)
    requires lo <= hi
    ensures |r| == hi - lo
  {
    seq(hi - lo, k requires 0 <= k < hi - lo => lo + k)
  }

  /** The batches concatenated in the order they were handed over. */
  function Flatten(batches: seq<seq<nat>>): seq<nat>
    decreases |batches|
  {
    if batches == [] then [] else batches[0] + Flatten(batches[1..])
  }

  /** The size the loop adds to the current batch size before comparing it
      with the limit: that of the next row, or nothing after the last row. */
  function Lookahead(sizes: seq<nat>, i: nat): nat {
    if i + 1 < |sizes| then sizes[i + 1] else 0
  }

  /** The flush test of the loop, taken right after row i was appended to a
      batch that now holds `count` rows of `size` bytes. */
  predicate FlushAt(sizes: seq<nat>, i: nat, count: nat, size: int) {
    size + Lookahead(sizes, i) > ByteLimit || count >= CountLimit
  }

  /** The flush test as a property of a nonempty batch: it is the test taken
      right after the batch's last row was appended. */
  predicate Flushes(sizes: seq<nat>, batch: seq<nat>)
    requires InRange(sizes, batch) && batch != []
  {
    FlushAt(sizes, batch[|batch| - 1], |batch|, Total(sizes, batch))
  }

  /** The batches handed over from row i on, when the batch being built holds
      `current`, of `currentSize` bytes. */
  function PlanFrom(sizes: seq<nat>, i: nat, current: seq<nat>, currentSize: int): seq<seq<nat>>
    requires i <= |sizes|
    decreases |sizes| - i
  {
    if i == |sizes| then [current]
    else
      var next := current + [i];
      var nextSize := currentSize + sizes[i];
      if FlushAt(sizes, i, |next|, nextSize) then [next] + PlanFrom(sizes, i + 1, [], 0)
      else PlanFrom(sizes, i + 1, next, nextSize)
  }

  /** Every batch handed over by one "upload all", in call order. */
  function Plan(sizes: seq<nat>): seq<seq<nat>> {
    PlanFrom(sizes, 0, [], 0)
  }

  /** The loop of "upload all". Each batch appended to `batches` stands for
      one call of the anonymize-and-upload step with that list of rows. */
  method PlanBatches(sizes: seq<nat>) returns (batches: seq<seq<nat>>)
    ensures batches == Plan(sizes)
    ensures Flatten(batches) == Range(0, |sizes|)
    ensures |batches| >= 1
    ensures forall k :: 0 <= k < |batches| ==> |batches[k]| <= CountLimit
    ensures forall k :: 0 <= k < |batches| && |batches[k]| >= 2 ==>
      InRange(sizes, batches[k]) && Total(sizes, batches[k]) <= ByteLimit
  {
    batches := [];
    var fileList: seq<nat> := [];
    var currentUploadSize: int := 0;
    var i := 0;
    while i < |sizes|
      invariant 0 <= i <= |sizes|
      invariant batches + PlanFrom(sizes, i, fileList, currentUploadSize) == Plan(sizes)
    {
      fileList := fileList + [i];
      currentUploadSize := currentUploadSize + sizes[i];
      var compareSize := if i + 1 < |sizes| then currentUploadSize + sizes[i + 1] else currentUploadSize;
      if compareSize > ByteLimit || |fileList| >= CountLimit {
        batches := batches + [fileList];
        fileList := [];
        currentUploadSize := 0;
      }
      i := i + 1;
    }
    batches := batches + [fileList];
    PlanCoversRows(sizes);
    PlanCountBound(sizes);
    PlanSizeBound(sizes);
  }

  // ------------------------------------------------------------------ lemmas

  lemma RangeSplit(lo: nat, hi: nat)
    requires lo < hi
    ensures Range(lo, hi) == [lo] + Range(lo + 1, hi)
  {
  }

  lemma RangeExtend(lo: nat, hi: nat)
    requires lo <= hi
    ensures Range(lo, hi) + [hi] == Range(lo, hi + 1)
  {
  }

  lemma {:induction false} FlattenPlanFrom(sizes: seq<nat>, i: nat, current: seq<nat>, currentSize: int)
    requires i <= |sizes|
    ensures Flatten(PlanFrom(sizes, i, current, currentSize)) == current + Range(i, |sizes|)
    decreases |sizes| - i
  {
    var n := |sizes|;
    if i == n {
      assert Flatten([current]) == current + Flatten([]);
    } else {
      var next := current + [i];
      var nextSize := currentSize + sizes[i];
      RangeSplit(i, n);
      if FlushAt(sizes, i, |next|, nextSize) {
        var rest := PlanFrom(sizes, i + 1, [], 0);
        FlattenPlanFrom(sizes, i + 1, [], 0);
        assert ([next] + rest)[1..] == rest;
        assert Flatten([next] + rest) == next + Flatten(rest);
      } else {
        FlattenPlanFrom(sizes, i + 1, next, nextSize);
      }
    }
  }

  /** The batches, concatenated in call order, are exactly the rows 0 .. n-1,
      each once and in order. */
  lemma PlanCoversRows(sizes: seq<nat>)
    ensures Flatten(Plan(sizes)) == Range(0, |sizes|)
  {
    FlattenPlanFrom(sizes, 0, [], 0);
  }

  /** An element of a batch is an element of the concatenation. */
  lemma {:induction false} FlattenHas(P: seq<seq<nat>>, k: nat, j: nat)
    requires k < |P| && j < |P[k]|
    ensures P[k][j] in Flatten(P)
    decreases k
  {
    assert Flatten(P) == P[0] + Flatten(P[1..]);
    if k > 0 {
      FlattenHas(P[1..], k - 1, j);
      assert P[1..][k - 1] == P[k];
    }
  }

  /** Every batch names rows of the table only. */
  lemma PlanInRange(sizes: seq<nat>)
    ensures forall k :: 0 <= k < |Plan(sizes)| ==> InRange(sizes, Plan(sizes)[k])
  {
    PlanCoversRows(sizes);
    var P := Plan(sizes);
    forall k, j | 0 <= k < |P| && 0 <= j < |P[k]|
      ensures P[k][j] < |sizes|
    {
      FlattenHas(P, k, j);
    }
  }

  lemma {:induction false} PlanFromCountBound(sizes: seq<nat>, i: nat, current: seq<nat>, currentSize: int)
    requires i <= |sizes| && |current| < CountLimit
    ensures forall k :: 0 <= k < |PlanFrom(sizes, i, current, currentSize)| ==>
      |PlanFrom(sizes, i, current, currentSize)[k]| <= CountLimit
    ensures |PlanFrom(sizes, i, current, currentSize)| >= 1
    decreases |sizes| - i
  {
    if i < |sizes| {
      var next := current + [i];
      var nextSize := currentSize + sizes[i];
      if FlushAt(sizes, i, |next|, nextSize) {
        PlanFromCountBound(sizes, i + 1, [], 0);
      } else {
        PlanFromCountBound(sizes, i + 1, next, nextSize);
      }
    }
  }

  /** No batch holds more than 100 rows, and there is always at least one
      call (the one after the loop). */
  lemma PlanCountBound(sizes: seq<nat>)
    ensures |Plan(sizes)| >= 1
    ensures forall k :: 0 <= k < |Plan(sizes)| ==> |Plan(sizes)[k]| <= CountLimit
  {
    PlanFromCountBound(sizes, 0, [], 0);
  }

  /** The state of the loop before row i: the current batch holds the rows
      just before i, its size is their total, it holds fewer than 100 rows
      and none of its nonempty prefixes met the flush test. */
  ghost predicate LoopState(sizes: seq<nat>, i: nat, current: seq<nat>, currentSize: int) {
    i <= |sizes| && |current| <= i &&
    current == Range(i - |current|, i) &&
    InRange(sizes, current) &&
    currentSize == Total(sizes, current) &&
    |current| < CountLimit &&
    forall m :: 0 < m <= |current| ==> !Flushes(sizes, current[..m])
  }

  /** Appending row i to a loop state that does not flush gives the loop
      state before row i + 1. */
  lemma {:induction false} LoopStateStep(sizes: seq<nat>, i: nat, current: seq<nat>, currentSize: int)
    requires LoopState(sizes, i, current, currentSize) && i < |sizes|
    requires !FlushAt(sizes, i, |current| + 1, currentSize + sizes[i])
    ensures LoopState(sizes, i + 1, current + [i], currentSize + sizes[i])
  {
    var next := current + [i];
    RangeExtend(i - |current|, i);
    assert next[..|next| - 1] == current;
    assert InRange(sizes, next);
    assert Total(sizes, next) == currentSize + sizes[i];
    forall m | 0 < m <= |next|
      ensures !Flushes(sizes, next[..m])
    {
      if m <= |current| {
        assert next[..m] == current[..m];
      } else {
        assert next[..m] == next;
      }
    }
  }

  lemma LoopStateEmpty(sizes: seq<nat>, i: nat)
    requires i <= |sizes|
    ensures LoopState(sizes, i, [], 0)
  {
  }

  /** Batches of two or more rows stay within the byte limit; so does every
      batch the loop did not flush (the last one). */
  lemma {:induction false} PlanFromSizeBound(sizes: seq<nat>, i: nat, current: seq<nat>, currentSize: int)
    requires LoopState(sizes, i, current, currentSize)
    ensures forall k :: 0 <= k < |PlanFrom(sizes, i, current, currentSize)| ==>
      var b := PlanFrom(sizes, i, current, currentSize)[k];
      InRange(sizes, b) && (|b| >= 2 ==> Total(sizes, b) <= ByteLimit)
    decreases |sizes| - i
  {
    var P := PlanFrom(sizes, i, current, currentSize);
    if i == |sizes| {
      if current != [] {
        assert current[..|current|] == current;
        assert !Flushes(sizes, current);
      }
    } else {
      var next := current + [i];
      var nextSize := currentSize + sizes[i];
      RangeExtend(i - |current|, i);
      assert next[..|next| - 1] == current;
      assert InRange(sizes, next);
      assert Total(sizes, next) == nextSize;
      if FlushAt(sizes, i, |next|, nextSize) {
        LoopStateEmpty(sizes, i + 1);
        PlanFromSizeBound(sizes, i + 1, [], 0);
        if |next| >= 2 {
          assert current[..|current|] == current;
          assert !Flushes(sizes, current);
          assert current[|current| - 1] == i - 1;
        }
        assert P == [next] + PlanFrom(sizes, i + 1, [], 0);
      } else {
        LoopStateStep(sizes, i, current, currentSize);
        PlanFromSizeBound(sizes, i + 1, next, nextSize);
      }
    }
  }

  /** Any batch with two or more rows has a total size of at most
      500,000,000 bytes. */
  lemma PlanSizeBound(sizes: seq<nat>)
    ensures forall k :: 0 <= k < |Plan(sizes)| ==>
      InRange(sizes, Plan(sizes)[k]) &&
      (|Plan(sizes)[k]| >= 2 ==> Total(sizes, Plan(sizes)[k]) <= ByteLimit)
  {
    LoopStateEmpty(sizes, 0);
    PlanFromSizeBound(sizes, 0, [], 0);
  }

  /** The greedy shape of a plan: every batch but the last one met the flush
      test at its last row, and no batch met it at any earlier row (nor the
      last batch at its own last row). */
  ghost predicate Greedy(sizes: seq<nat>, plan: seq<seq<nat>>) {
    |plan| >= 1 &&
    (forall k :: 0 <= k < |plan| ==> InRange(sizes, plan[k])) &&
    (forall k :: 0 <= k < |plan| - 1 ==> plan[k] != [] && Flushes(sizes, plan[k])) &&
    (forall k, m :: 0 <= k < |plan| && 0 < m < |plan[k]| ==> !Flushes(sizes, plan[k][..m])) &&
    (plan[|plan| - 1] != [] ==> !Flushes(sizes, plan[|plan| - 1]))
  }

  /** A batch that met the flush test at its last row and at no earlier
      one, followed by a greedy plan, is a greedy plan. */
  lemma GreedyCons(sizes: seq<nat>, batch: seq<nat>, rest: seq<seq<nat>>)
    requires batch != [] && InRange(sizes, batch) && Flushes(sizes, batch)
    requires forall m :: 0 < m < |batch| ==> !Flushes(sizes, batch[..m])
    requires Greedy(sizes, rest)
    ensures Greedy(sizes, [batch] + rest)
  {
    var P := [batch] + rest;
    assert forall k :: 1 <= k < |P| ==> P[k] == rest[k - 1];
    forall k, m | 0 <= k < |P| && 0 < m < |P[k]|
      ensures !Flushes(sizes, P[k][..m])
    {
      if k > 0 {
        assert P[k] == rest[k - 1];
      }
    }
  }

  /** The appended batch `current + [i]` of a loop state: it holds row i
      last, and none of its proper prefixes met the flush test. */
  lemma {:induction false} LoopStateNext(sizes: seq<nat>, i: nat, current: seq<nat>, currentSize: int)
    requires LoopState(sizes, i, current, currentSize) && i < |sizes|
    ensures var next := current + [i];
      InRange(sizes, next) && Total(sizes, next) == currentSize + sizes[i] &&
      next[|next| - 1] == i &&
      forall m :: 0 < m < |next| ==> !Flushes(sizes, next[..m])
  {
    var next := current + [i];
    assert next[..|next| - 1] == current;
    assert InRange(sizes, next);
    forall m | 0 < m < |next|
      ensures !Flushes(sizes, next[..m])
    {
      assert next[..m] == current[..m];
    }
  }

  lemma {:induction false} PlanFromGreedy(sizes: seq<nat>, i: nat, current: seq<nat>, currentSize: int)
    requires LoopState(sizes, i, current, currentSize)
    ensures Greedy(sizes, PlanFrom(sizes, i, current, currentSize))
    decreases |sizes| - i
  {
    if i == |sizes| {
      assert PlanFrom(sizes, i, current, currentSize) == [current];
      if current != [] {
        assert current[..|current|] == current;
      }
    } else {
      var next := current + [i];
      var nextSize := currentSize + sizes[i];
      if FlushAt(sizes, i, |next|, nextSize) {
        LoopStateNext(sizes, i, current, currentSize);
        LoopStateEmpty(sizes, i + 1);
        PlanFromGreedy(sizes, i + 1, [], 0);
        GreedyCons(sizes, next, PlanFrom(sizes, i + 1, [], 0));
      } else {
        LoopStateStep(sizes, i, current, currentSize);
        PlanFromGreedy(sizes, i + 1, next, nextSize);
      }
    }
  }

  /** A flush inside the loop happens exactly when the current total plus the
      size of the next row is over the byte limit or the batch already holds
      100 rows. */
  lemma PlanIsGreedy(sizes: seq<nat>)
    ensures Greedy(sizes, Plan(sizes))
  {
    LoopStateEmpty(sizes, 0);
    PlanFromGreedy(sizes, 0, [], 0);
  }

  /** The final call (after the loop) gets an empty list exactly when the
      batch holding the last row met the flush test at that row, that is,
      was over the byte limit or held 100 rows. With no rows at all it is the
      only call and gets an empty list. */
  lemma PlanFinalCall(sizes: seq<nat>)
    ensures var P := Plan(sizes);
      |P| >= 1 &&
      (|sizes| == 0 ==> P == [[]]) &&
      (|sizes| > 0 ==>
        (P[|P| - 1] == [] ==> |P| >= 2) &&
        var holder := if P[|P| - 1] == [] then P[|P| - 2] else P[|P| - 1];
        holder != [] && InRange(sizes, holder) && holder[|holder| - 1] == |sizes| - 1 &&
        (P[|P| - 1] == [] <==> (Total(sizes, holder) > ByteLimit || |holder| >= CountLimit)))
  {
    var P := Plan(sizes);
    var n := |sizes|;
    PlanIsGreedy(sizes);
    PlanCoversRows(sizes);
    if n > 0 {
      FlattenLast(P);
      var holder := if P[|P| - 1] == [] then P[|P| - 2] else P[|P| - 1];
      assert holder[|holder| - 1] == Range(0, n)[n - 1];
      assert Lookahead(sizes, n - 1) == 0;
    }
  }

  /** The last element of a concatenation of batches sits in the last batch
      if that is nonempty, and otherwise in the one before it, provided the
      last batch is the only one that may be empty. */
  lemma {:induction false} FlattenLast(P: seq<seq<nat>>)
    requires |P| >= 1 && Flatten(P) != []
    requires forall k :: 0 <= k < |P| - 1 ==> P[k] != []
    ensures P[|P| - 1] == [] ==> |P| >= 2
    ensures var holder := if P[|P| - 1] == [] then P[|P| - 2] else P[|P| - 1];
      holder != [] && holder[|holder| - 1] == Flatten(P)[|Flatten(P)| - 1]
    decreases |P|
  {
    if |P| == 1 {
      assert Flatten(P) == P[0] + Flatten([]);
    } else {
      var Q := P[1..];
      assert Flatten(P) == P[0] + Flatten(Q);
      if Flatten(Q) == [] {
        assert Flatten(Q) == Q[0] + Flatten(Q[1..]);
        assert Q[0] == [];
        assert Flatten(P) == P[0];
      } else {
        FlattenLast(Q);
        assert Q[|Q| - 1] == P[|P| - 1];
      }
    }
  }

  /** With at most 100 rows that together stay within the byte limit, one
      batch holds every row. With fewer than 100 it is the only call; with
      exactly 100 the loop flushes it at the last row and the final call gets
      an empty list. */
  lemma {:induction false} SmallUpload(sizes: seq<nat>)
    requires |sizes| <= CountLimit
    requires Total(sizes, Range(0, |sizes|)) <= ByteLimit
    ensures Plan(sizes) == if |sizes| < CountLimit then [Range(0, |sizes|)] else [Range(0, |sizes|), []]
  {
    NoFlushFrom(sizes, 0, |sizes|);
  }

  lemma {:induction false} TotalRangePrefix(sizes: seq<nat>, j: nat, n: nat)
    requires j <= n <= |sizes|
    ensures Total(sizes, Range(0, j)) <= Total(sizes, Range(0, n))
    decreases n - j
  {
    if j < n {
      TotalRangePrefix(sizes, j + 1, n);
      RangeExtend(0, j);
      assert Range(0, j + 1)[..j] == Range(0, j);
    }
  }

  lemma {:induction false} NoFlushFrom(sizes: seq<nat>, i: nat, n: nat)
    requires n == |sizes| <= CountLimit && i <= n
    requires i == n ==> n < CountLimit
    requires Total(sizes, Range(0, n)) <= ByteLimit
    ensures PlanFrom(sizes, i, Range(0, i), Total(sizes, Range(0, i))) ==
      if n < CountLimit then [Range(0, n)] else [Range(0, n), []]
    decreases n - i
  {
    if i < n {
      RangeExtend(0, i);
      var next := Range(0, i + 1);
      assert next[..i] == Range(0, i);
      assert Total(sizes, next) == Total(sizes, Range(0, i)) + sizes[i];
      if i + 1 < n {
        RangeExtend(0, i + 1);
        assert Range(0, i + 2)[..i + 1] == next;
        TotalRangePrefix(sizes, i + 2, n);
        assert !FlushAt(sizes, i, i + 1, Total(sizes, next));
        NoFlushFrom(sizes, i + 1, n);
      } else {
        TotalRangePrefix(sizes, i + 1, n);
        assert Total(sizes, next) + Lookahead(sizes, i) <= ByteLimit;
        assert PlanFrom(sizes, i + 1, [], 0) == [[]];
      }
    }
  }

  // ------------------------------------------- the loop as written, in 32 bits

  /** Two's-complement wrap-around of a 32-bit `int` sum. */
  function Wrap32(x: int): (r: int)
    ensures InInt32(r)
    ensures InInt32(x) ==> r == x
  {
    (x - MinInt32) % 0x1_0000_0000 + MinInt32
  }

  lemma Wrap32Above(x: int)
    requires MaxInt32 < x <= 2 * MaxInt32
    ensures Wrap32(x) == x - 0x1_0000_0000 < 0
  {
    var y := x - MinInt32;
    assert 0x1_0000_0000 <= y < 2 * 0x1_0000_0000;
    assert y % 0x1_0000_0000 == y - 0x1_0000_0000 by {
      var q := y / 0x1_0000_0000;
      assert y == q * 0x1_0000_0000 + y % 0x1_0000_0000;
      assert q == 1;
    }
  }

  /** The size as the loop reads it back: sizes of 2^31 bytes or more do
      not fit the 32-bit conversion and are read as 0. */
  function ColumnSize(size: nat): int {
    if size <= MaxInt32 then size else 0
  }

  /** The size column holds the size in decimal, and the loop converts it
      with QString::toInt: that is ColumnSize. */
  lemma ColumnSizeReadsText(size: nat)
    ensures ColumnSize(size) == ToInt(NatToString(size))
  {
    ToIntOfNatString(size);
  }

  /** The sizes of all rows as the loop reads them back. */
  function ReadSizes(sizes: seq<nat>): (read: seq<int>)
    ensures |read| == |sizes|
  {
    seq(|sizes|, k requires 0 <= k < |sizes| => ColumnSize(sizes[k]))
  }

  /** The loop exactly as written, over the sizes as read back: the running
      size and the look-ahead sum are 32-bit `int`s. */
  function PlanFromAsWritten(read: seq<int>, i: nat, current: seq<nat>, currentSize: int): seq<seq<nat>>
    requires i <= |read|
    decreases |read| - i
  {
    if i == |read| then [current]
    else
      var next := current + [i];
      var nextSize := Wrap32(currentSize + read[i]);
      var compareSize := if i + 1 < |read| then Wrap32(nextSize + read[i + 1]) else nextSize;
      if compareSize > ByteLimit || |next| >= CountLimit then [next] + PlanFromAsWritten(read, i + 1, [], 0)
      else PlanFromAsWritten(read, i + 1, next, nextSize)
  }

  function PlanAsWritten(sizes: seq<nat>): seq<seq<nat>> {
    PlanFromAsWritten(ReadSizes(sizes), 0, [], 0)
  }

  /** Rows small enough that neither the read-back nor any 32-bit sum of
      the loop can go wrong: each row is at most (2^31 - 1 - 500,000,000) / 2
      bytes, about 820 MB. */
  predicate NoWrap(sizes: seq<nat>) {
    forall k :: 0 <= k < |sizes| ==> 2 * sizes[k] <= MaxInt32 - ByteLimit
  }

  /** From any point with at most the byte limit in the current batch, the
      loop as written and the exact plan hand over the same batches. */
  lemma {:induction false} PlanFromAsWrittenAgrees(sizes: seq<nat>, i: nat, current: seq<nat>, currentSize: int)
    requires NoWrap(sizes) && i <= |sizes|
    requires 0 <= currentSize <= ByteLimit
    ensures PlanFromAsWritten(ReadSizes(sizes), i, current, currentSize) == PlanFrom(sizes, i, current, currentSize)
    decreases |sizes| - i
  {
    if i < |sizes| {
      var read := ReadSizes(sizes);
      assert read[i] == sizes[i];
      var nextSize := currentSize + sizes[i];
      assert Wrap32(currentSize + read[i]) == nextSize;
      if i + 1 < |sizes| {
        assert read[i + 1] == sizes[i + 1];
        assert Wrap32(nextSize + read[i + 1]) == nextSize + Lookahead(sizes, i);
      }
      if FlushAt(sizes, i, |current| + 1, nextSize) {
        PlanFromAsWrittenAgrees(sizes, i + 1, [], 0);
      } else {
        PlanFromAsWrittenAgrees(sizes, i + 1, current + [i], nextSize);
      }
    }
  }

  /** For rows of at most about 820 MB each the loop as written, with its
      32-bit read-back and sums, hands over exactly the intended batches. */
  lemma PlanAsWrittenAgrees(sizes: seq<nat>)
    requires NoWrap(sizes)
    ensures PlanAsWritten(sizes) == Plan(sizes)
  {
    PlanFromAsWrittenAgrees(sizes, 0, [], 0);
  }

  lemma ReadTwoSizes(a: nat, b: nat)
    ensures ReadSizes([a, b]) == [ColumnSize(a), ColumnSize(b)]
  {
  }

  /** Last step of the wrapped pair: the second row is appended and the loop ends. */
  lemma WrappedPairTail(a: int, b: int, size: int)
    ensures PlanFromAsWritten([a, b], 1, [0], size) ==
      (if Wrap32(size + b) > ByteLimit then [[0, 1], []] else [[0, 1]])
  {
    assert [0] + [1] == [0, 1];
  }

  /** First step of the wrapped pair: the look-ahead sum after row 0 is a + b in 32 bits. */
  lemma WrappedPairHead(a: int, b: int)
    requires InInt32(a) && Wrap32(a + b) <= ByteLimit
    ensures PlanFromAsWritten([a, b], 0, [], 0) == PlanFromAsWritten([a, b], 1, [0], a)
  {
    assert Wrap32(0 + a) == a;
    assert [] + [0] == [0];
  }

  /** Read sizes whose sum overflows 32 bits travel in one batch. */
  lemma WrappedPairJoins(a: int, b: int)
    requires 0 <= a <= MaxInt32 && 0 <= b <= MaxInt32 && a + b > MaxInt32
    ensures PlanFromAsWritten([a, b], 0, [], 0) == [[0, 1]]
  {
    Wrap32Above(a + b);
    WrappedPairHead(a, b);
    WrappedPairTail(a, b, a);
  }

  /** Two rows that each fit in 31 bits but whose sum does not (two rows of
      1.5 GB, say): the 32-bit sum wraps to a negative number, the flush test
      fails, and both rows travel in one batch of more than 2 GB. With exact
      sums the first row is a batch of its own. */
  lemma AsWrittenWrapJoinsLargeRows(a: nat, b: nat)
    requires a <= MaxInt32 && b <= MaxInt32 && a + b > MaxInt32
    ensures PlanAsWritten([a, b]) == [[0, 1]]
    ensures Total([a, b], [0, 1]) > ByteLimit
    ensures Plan([a, b]) == [[0]] + PlanFrom([a, b], 1, [], 0)
  {
    ReadTwoSizes(a, b);
    WrappedPairJoins(a, b);
    TotalPair(a, b);
    PlanPairFirst(a, b);
  }

  /** A row of 2^31 bytes or more reads as 0 bytes, so the row after it joins
      its batch. With exact sizes the large row is a batch of its own. */
  lemma AsWrittenHugeRowReadsAsZero(a: nat, b: nat)
    requires a > MaxInt32 && b <= ByteLimit
    ensures PlanAsWritten([a, b]) == [[0, 1]]
    ensures Total([a, b], [0, 1]) > ByteLimit
    ensures Plan([a, b]) == [[0]] + PlanFrom([a, b], 1, [], 0)
  {
    ReadTwoSizes(a, b);
    WrappedPairHead(0, b);
    WrappedPairTail(0, b, 0);
    TotalPair(a, b);
    PlanPairFirst(a, b);
  }

  lemma TotalPair(a: nat, b: nat)
    ensures Total([a, b], [0, 1]) == a + b
  {
    assert [0, 1][..1] == [0];
    assert [0][..0] == [];
  }

  /** With exact sums, two rows over the byte limit together are split: the
      first one is a batch of its own. */
  lemma PlanPairFirst(a: nat, b: nat)
    requires a + b > ByteLimit
    ensures Plan([a, b]) == [[0]] + PlanFrom([a, b], 1, [], 0)
  {
    assert [] + [0] == [0];
  }
}
