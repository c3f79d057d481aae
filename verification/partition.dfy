/**
 * How `main` splits the image rows among the worker threads (src/main.cpp:103-118, and the
 * same loop in main.cpp:90-105). Rows are numbered bottom (0) to top (height - 1); every
 * worker scans an inclusive range [start, end] from `start` down to `end`. The threads
 * themselves are not modelled: each range is what one worker is handed.
 */
module RowPartition {

  /** The arguments one worker is started with: scan rows start, start - 1, ..., end. */
  datatype Range = Range(start: int, end: int)

  /** The outcome of the partition: the ranges handed to the workers in thread order, or the
      integer division by zero a thread count of 0 causes. */
  datatype Split = Ranges(ranges: seq<Range>) | DivisionByZero

  /** The rows scan_vertical visits for [start, end], top to bottom: `for (j = start; j >= end;
      --j)`. Empty when start < end. */
  function Rows(start: int, end: int): seq<int>
    decreases start - end + 1
  {
    if start < end then [] else Rows(start, end + 1) + [end]
  }

  /** The rows of all ranges, in thread order. */
  function AllRows(ranges: seq<Range>): seq<int> {
    if |ranges| == 0 then [] else Rows(ranges[0].start, ranges[0].end) + AllRows(ranges[1..])
  }

  /** `if (end < 0) end = 0;` */
  function ClampEnd(end: int): int {
    if end < 0 then 0 else end
  }

  /** The ranges the loop hands out from some thread on: `count` threads remain, the next
      range is [start, end], and after it `start = end - 1` and `end = start - step`, clamped
      at 0. */
  function RangesFrom(count: nat, start: int, end: int, step: int): (rs: seq<Range>)
    ensures |rs| == count
    ensures count > 0 ==> rs[0] == Range(start, end)
  {
    if count == 0 then []
    else [Range(start, end)] + RangesFrom(count - 1, end - 1, ClampEnd(end - 1 - step), step)
  }

  /** The partition as written: `vertical_step = IMAGE_HEIGHT / thread_count`, the first range
      is [height - 1, height - 1 - vertical_step], and only the later ends are clamped. */
  function Partition(height: nat, threadCount: nat): Split {
    if threadCount == 0 then DivisionByZero
    else
      var step := height / threadCount;
      Ranges(RangesFrom(threadCount, height - 1, height - 1 - step, step))
  }

  /** The partition with the first end clamped like the others, as the clamp evidently
      intends. */
  function PartitionClamped(height: nat, threadCount: nat): Split {
    if threadCount == 0 then DivisionByZero
    else
      var step := height / threadCount;
      Ranges(RangesFrom(threadCount, height - 1, ClampEnd(height - 1 - step), step))
  }

  /** The partition loop of `main`. */
  method SplitRows(height: nat, threadCount: nat) returns (split: Split)
    ensures split == Partition(height, threadCount)
  {
    if threadCount == 0 {
      return DivisionByZero;
    }
    var step := height / threadCount;
    var start := height - 1;
    var end := start - step;
    var ranges: seq<Range> := [];
    var i := 0;
    while i < threadCount
      invariant 0 <= i <= threadCount
      invariant ranges + RangesFrom(threadCount - i, start, end, step)
                == RangesFrom(threadCount, height - 1, height - 1 - step, step)
    {
      SplitOneMore(ranges, threadCount - i, start, end, step);
      ranges := ranges + [Range(start, end)];
      start := end - 1;
      end := start - step;
      if end < 0 {
        end := 0;
      }
      i := i + 1;
    }
    split := Ranges(ranges);
  }

  /** One turn of the partition loop moves the next range from what is still to be handed out
      to what has been. */
  lemma SplitOneMore(done: seq<Range>, count: nat, start: int, end: int, step: int)
    requires count >= 1
    ensures done + RangesFrom(count, start, end, step) ==
            (done + [Range(start, end)]) + RangesFrom(count - 1, end - 1, ClampEnd(end - 1 - step), step)
  {
    var rest := RangesFrom(count - 1, end - 1, ClampEnd(end - 1 - step), step);
    assert RangesFrom(count, start, end, step) == [Range(start, end)] + rest;
    assert done + ([Range(start, end)] + rest) == (done + [Range(start, end)]) + rest;
  }

  /** Each range handed out starts one row below where the previous one ended, and every end
      after the first has been clamped at 0. */
  lemma {:induction false} RangesFromShape(count: nat, start: int, end: int, step: int)
    ensures forall i :: 1 <= i < count ==>
              RangesFrom(count, start, end, step)[i].start == RangesFrom(count, start, end, step)[i - 1].end - 1
    ensures forall i :: 1 <= i < count ==> RangesFrom(count, start, end, step)[i].end >= 0
    decreases count
  {
    if count > 0 {
      var rs := RangesFrom(count, start, end, step);
      var next := ClampEnd(end - 1 - step);
      var rest := RangesFrom(count - 1, end - 1, next, step);
      RangesFromShape(count - 1, end - 1, next, step);
      assert rs == [Range(start, end)] + rest;
      forall i | 1 <= i < count ensures rs[i].start == rs[i - 1].end - 1 {
        assert rs[i] == rest[i - 1];
        if i == 1 {
          assert rest[0] == Range(end - 1, next);
        } else {
          assert rs[i - 1] == rest[i - 2];
          assert rest[i - 1].start == rest[i - 2].end - 1;
        }
      }
      forall i | 1 <= i < count ensures rs[i].end >= 0 {
        assert rs[i] == rest[i - 1];
        if i == 1 {
          assert rest[0] == Range(end - 1, next);
        } else {
          assert rest[i - 1].end >= 0;
        }
      }
    }
  }

  // ---------------------------------------------------------------------------------------
  // Properties of the rows of one range

  /** A range holds start - end + 1 rows (none when start < end), each one below the last. */
  lemma {:induction false} RowsShape(start: int, end: int)
    ensures |Rows(start, end)| == if start < end then 0 else start - end + 1
    ensures forall k :: 0 <= k < |Rows(start, end)| ==> Rows(start, end)[k] == start - k
    decreases start - end + 1
  {
    if start >= end {
      RowsShape(start, end + 1);
    }
  }

  /** Rows down to `end` are the rows down to `middle` followed by the rows from just below
      `middle` down to `end`. */
  lemma {:induction false} RowsSplit(start: int, middle: int, end: int)
    requires end <= middle <= start + 1
    ensures Rows(start, end) == Rows(start, middle) + Rows(middle - 1, end)
    decreases middle - end
  {
    if end < middle {
      RowsSplit(start, middle, end + 1);
      assert Rows(middle - 1, end) == Rows(middle - 1, end + 1) + [end];
    }
  }

  /** Every row from `top` down to 0 occurs exactly once in Rows(top, 0), in descending
      order; nothing else occurs. */
  lemma RowsExactlyOnce(top: int)
    ensures forall k, l :: 0 <= k < l < |Rows(top, 0)| ==> Rows(top, 0)[k] > Rows(top, 0)[l]
    ensures forall row :: row in Rows(top, 0) <==> 0 <= row <= top
  {
    RowsShape(top, 0);
    var rows := Rows(top, 0);
    forall row | 0 <= row <= top ensures row in rows {
      assert rows[top - row] == row;
    }
  }

  // ---------------------------------------------------------------------------------------
  // Coverage

  /** From a range [start, max(start - step, 0)] on, `count` ranges of step + 1 rows reach down
      to row 0 whenever they hold enough rows: together they are exactly the rows from `start`
      down to 0, top to bottom. */
  lemma {:induction false} RangesCoverFrom(count: nat, start: int, step: int)
    requires step >= 0 && start >= -1 && count >= 1
    requires count * (step + 1) >= start + 1
    ensures AllRows(RangesFrom(count, start, ClampEnd(start - step), step)) == Rows(start, 0)
    decreases count
  {
    var end := ClampEnd(start - step);
    var rs := RangesFrom(count, start, end, step);
    var next := ClampEnd(end - 1 - step);
    assert rs[1..] == RangesFrom(count - 1, end - 1, next, step);
    if count == 1 {
      assert start - step <= 0 by {
        assert count * (step + 1) == step + 1;
      }
      assert AllRows(rs[1..]) == [];
      if start >= 0 {
        RowsSplit(start, 0, 0);
      }
    } else {
      assert (count - 1) * (step + 1) >= end by {
        assert (count - 1) * (step + 1) == count * (step + 1) - (step + 1);
      }
      RangesCoverFrom(count - 1, end - 1, step);
      if start >= 0 {
        RowsSplit(start, end, 0);
      }
    }
  }

  /** The facts of integer division the partition rests on: `threadCount` steps of
      height / threadCount rows fall short of the height by less than one per thread, and a
      step is at most half the height when there are two threads or more. */
  lemma StepFacts(height: nat, threadCount: nat)
    requires threadCount >= 1
    ensures threadCount * (height / threadCount + 1) >= height
    ensures threadCount >= 2 && height >= 1 ==> height - 1 - height / threadCount >= 0
  {
    var step := height / threadCount;
    assert height == threadCount * step + height % threadCount;
    assert threadCount * (step + 1) == threadCount * step + threadCount;
    if threadCount >= 2 && height >= 1 {
      assert threadCount * step >= 2 * step by {
        assert (threadCount - 2) * step >= 0;
      }
    }
  }

  /** With two threads or more, the ranges handed out are pairwise disjoint and cover every
      row of the image exactly once: their rows, in thread order, are height - 1 down to 0. */
  lemma PartitionCoversRows(height: nat, threadCount: nat)
    requires threadCount >= 2 && height >= 1
    ensures Partition(height, threadCount).Ranges?
    ensures |Partition(height, threadCount).ranges| == threadCount
    ensures AllRows(Partition(height, threadCount).ranges) == Rows(height - 1, 0)
  {
    var step := height / threadCount;
    StepFacts(height, threadCount);
    assert ClampEnd(height - 1 - step) == height - 1 - step;
    RangesCoverFrom(threadCount, height - 1, step);
  }

  /** Each range starts one row below where the previous one ended, so the rows strictly
      decrease across the threads and the buffers, taken in thread order, run top to bottom. */
  lemma RangesAreConsecutive(height: nat, threadCount: nat)
    requires threadCount >= 1
    ensures var rs := Partition(height, threadCount).ranges;
            forall i :: 0 <= i < |rs| - 1 ==> rs[i + 1].start == rs[i].end - 1
  {
    var step := height / threadCount;
    assert Partition(height, threadCount).ranges == RangesFrom(threadCount, height - 1, height - 1 - step, step);
    RangesFromShape(threadCount, height - 1, height - 1 - step, step);
  }

  /** With one thread the first end is height - 1 - height = -1 and is never clamped: the one
      worker scans the height rows and row -1 besides. */
  lemma SingleThreadScansRowMinusOne(height: nat)
    ensures Partition(height, 1) == Ranges([Range(height - 1, -1)])
    ensures AllRows(Partition(height, 1).ranges) == Rows(height - 1, 0) + [-1]
    ensures |AllRows(Partition(height, 1).ranges)| == height + 1
  {
    assert height / 1 == height;
    assert RangesFrom(1, height - 1, -1, height) == [Range(height - 1, -1)];
    assert AllRows([Range(height - 1, -1)]) == Rows(height - 1, -1);
    RowsSplit(height - 1, 0, -1);
    assert Rows(-1, -1) == [-1];
    RowsShape(height - 1, -1);
  }

  /** With no threads `vertical_step` divides by zero. */
  lemma NoThreadsDividesByZero(height: nat)
    ensures Partition(height, 0) == DivisionByZero
  {
  }

  /** Clamping the first end too makes the partition exact for every positive thread count. */
  lemma PartitionClampedCoversRows(height: nat, threadCount: nat)
    requires threadCount >= 1
    ensures PartitionClamped(height, threadCount).Ranges?
    ensures |PartitionClamped(height, threadCount).ranges| == threadCount
    ensures AllRows(PartitionClamped(height, threadCount).ranges) == Rows(height - 1, 0)
  {
    StepFacts(height, threadCount);
    RangesCoverFrom(threadCount, height - 1, height / threadCount);
  }

  /** The two agree from two threads on: the clamp only changes the single-thread case. */
  lemma PartitionsAgree(height: nat, threadCount: nat)
    requires threadCount >= 2 && height >= 1
    ensures Partition(height, threadCount) == PartitionClamped(height, threadCount)
  {
    StepFacts(height, threadCount);
  }
}
