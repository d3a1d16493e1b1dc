/**
 The batch as a whole: ProcessBatchWorkflow divides the records into partitions, runs one
 sliding window on each and adds up what they return (batch_sliding_window/batch_workflow.py).
 */
module Batch {
  import opened Wrappers
  import opened SlidingWindow

  datatype BatchInput = BatchInput(pageSize: int, windowSize: int, partitions: int)

  function Sum(xs: seq<int>): int {
    if xs == [] then 0 else Sum(xs[..|xs| - 1]) + xs[|xs| - 1]
  }

  // ---------- Dividing a number into partitions ----------

  /** The i-th of n parts of a number. */
  function Share(number: int, n: int, i: int): int
    requires n > 0
  {
    number / n + if i < number % n then 1 else 0
  }

  function Shares(number: int, n: int, count: nat): seq<int>
    requires n > 0
  {
    seq(count, i => Share(number, n, i))
  }

  /** A list repeated a negative number of times is empty; division by zero is an error. */
  function DivideIntoPartitions(number: int, n: int): Option<seq<int>> {
    if n == 0 then None else if n < 0 then Some([]) else Some(Shares(number, n, n))
  }

  lemma {:induction false} SumOfShares(number: int, n: int, count: nat)
    requires n > 0 && count <= n
    ensures Sum(Shares(number, n, count)) == (number / n) * count + Min(count, number % n)
    decreases count
  {
    if count > 0 {
      SumOfShares(number, n, count - 1);
      assert Shares(number, n, count)[..count - 1] == Shares(number, n, count - 1);
      assert (number / n) * count == (number / n) * (count - 1) + number / n;
    }
  }

  /** For at least one part, the parts add up to the number and differ by at most one. */
  lemma PartsAddUp(number: int, n: int)
    requires n >= 1
    ensures var parts := DivideIntoPartitions(number, n).value;
            && |parts| == n && Sum(parts) == number
            && (forall i, j | 0 <= i < n && 0 <= j < n :: parts[i] <= parts[j] + 1)
            && (number >= n ==> forall i | 0 <= i < n :: parts[i] >= 1)
            && (number >= 0 ==> forall i | 0 <= i < n :: parts[i] >= 0)
  {
    SumOfShares(number, n, n);
    assert number == (number / n) * n + number % n;
    if number >= n {
      assert number / n >= 1;
    }
  }

  // ---------- The plan ----------

  datatype Plan = Planned(windows: seq<Input>) | WindowTooSmall | DivisionByZero

  /** The range of partition i, clamped to the record count. */
  function PartitionInput(input: BatchInput, recordCount: int, i: nat): Input
    requires input.partitions > 0
  {
    var offset := Sum(Shares(recordCount, input.partitions, i));
    var end := offset + Share(recordCount, input.partitions, i);
    Input(input.pageSize, Share(input.windowSize, input.partitions, i),
          offset, if end > recordCount then recordCount else end, 0, {})
  }

  function MakePlan(input: BatchInput, recordCount: int): Plan {
    if input.windowSize < input.partitions then WindowTooSmall
    else if input.partitions == 0 then DivisionByZero
    else if input.partitions < 0 then Planned([])
    else Planned(seq(input.partitions, i requires 0 <= i => PartitionInput(input, recordCount, i)))
  }

  /** A window too small for the partitions is refused first; then no partition at all is a division by zero. */
  lemma PlanErrors(input: BatchInput, recordCount: int)
    ensures MakePlan(input, recordCount) == WindowTooSmall <==> input.windowSize < input.partitions
    ensures MakePlan(input, recordCount) == DivisionByZero <==> input.partitions == 0 && input.windowSize >= 0
    ensures MakePlan(input, recordCount).Planned? <==> input.partitions != 0 && input.partitions <= input.windowSize
    ensures MakePlan(input, recordCount).Planned? ==>
              |MakePlan(input, recordCount).windows| == Max(0, input.partitions)
  {
  }

  /** The ranges tile [0, recordCount) without gap or overlap. */
  predicate Tiles(windows: seq<Input>, recordCount: int) {
    && windows != []
    && windows[0].offset == 0
    && (forall i | 0 <= i < |windows| - 1 :: windows[i].maximum == windows[i + 1].offset)
    && windows[|windows| - 1].maximum == recordCount
    && (forall i | 0 <= i < |windows| :: windows[i].offset <= windows[i].maximum)
  }

  lemma PartialShare(q: int, n: int, r: int, i: int)
    requires q >= 0 && 0 <= r < n && 0 <= i <= n
    ensures 0 <= q * i + Min(i, r) <= q * n + r
  {
    Monotone(q, 0, i);
    Monotone(q, i, n);
  }

  lemma Quotient(number: int, n: int)
    requires n > 0 && number >= 0
    ensures number / n >= 0 && number == (number / n) * n + number % n
  {
  }

  lemma ShareUpTo(number: int, n: int, i: nat)
    requires n > 0 && number >= 0 && i <= n
    ensures 0 <= Sum(Shares(number, n, i)) <= number
  {
    Quotient(number, n);
    PartialShare(number / n, n, number % n, i);
    SumOfShares(number, n, i);
  }

  lemma ShareBounds(number: int, n: int, i: nat)
    requires n > 0 && number >= 0 && i < n
    ensures 0 <= Sum(Shares(number, n, i)) <= Sum(Shares(number, n, i + 1)) <= number
    ensures Sum(Shares(number, n, i + 1)) == Sum(Shares(number, n, i)) + Share(number, n, i)
  {
    ShareUpTo(number, n, i);
    ShareUpTo(number, n, i + 1);
    assert Shares(number, n, i + 1)[..i] == Shares(number, n, i);
  }

  lemma Monotone(q: int, a: int, b: int)
    requires q >= 0 && a <= b
    ensures q * a <= q * b
  {
    assert q * (b - a) >= 0;
    assert q * (b - a) == q * b - q * a;
  }

  lemma WindowTiles(input: BatchInput, recordCount: int, i: nat)
    requires recordCount >= 0 && 1 <= input.partitions <= input.windowSize && i < input.partitions
    ensures var w := PartitionInput(input, recordCount, i); var n := input.partitions;
            && w.offset == Sum(Shares(recordCount, n, i))
            && w.maximum == Sum(Shares(recordCount, n, i + 1)) == w.offset + Share(recordCount, n, i)
            && w.offset <= w.maximum <= recordCount
            && w.windowSize == Share(input.windowSize, n, i) >= 1
  {
    ShareBounds(recordCount, input.partitions, i);
    PartsAddUp(input.windowSize, input.partitions);
    assert DivideIntoPartitions(input.windowSize, input.partitions).value[i] >= 1;
  }

  /**
   With at least one partition and a window at least as large, the partitions tile the records,
   the clamp never fires, the loader accepts every bound, the windows add up to the window asked
   for and each has room for a child.
   */
  lemma PlanTiles(input: BatchInput, recordCount: int)
    requires recordCount >= 0 && 1 <= input.partitions <= input.windowSize
    ensures var plan := MakePlan(input, recordCount);
            && plan.Planned? && |plan.windows| == input.partitions
            && Tiles(plan.windows, recordCount)
            && (forall i | 0 <= i < |plan.windows| ::
                  && IsFresh(plan.windows[i])
                  && plan.windows[i].maximum == plan.windows[i].offset + Share(recordCount, input.partitions, i)
                  && plan.windows[i].maximum <= recordCount
                  && plan.windows[i].windowSize == Share(input.windowSize, input.partitions, i) >= 1
                  && plan.windows[i].pageSize == input.pageSize)
  {
    var n := input.partitions;
    var windows := MakePlan(input, recordCount).windows;
    forall i | 0 <= i < n
      ensures windows[i] == PartitionInput(input, recordCount, i)
      ensures windows[i].offset == Sum(Shares(recordCount, n, i))
      ensures windows[i].maximum == Sum(Shares(recordCount, n, i + 1))
      ensures windows[i].offset <= windows[i].maximum
    {
      WindowTiles(input, recordCount, i);
    }
    forall i | 0 <= i < n
      ensures windows[i].maximum == windows[i].offset + Share(recordCount, n, i) <= recordCount
      ensures windows[i].windowSize == Share(input.windowSize, n, i) >= 1
    {
      WindowTiles(input, recordCount, i);
    }
    PartsAddUp(recordCount, n);
  }

  // ---------- The batch running ----------

  /** Step k of a batch: one event of the window of one partition. */
  datatype BatchEvent = BatchEvent(partition: nat, event: Event)

  predicate BatchRun(chains: seq<Chain>, recordCount: int, es: seq<BatchEvent>)
    decreases |es|
  {
    es == [] ||
    (&& es[0].partition < |chains|
     && Enabled(chains[es[0].partition], recordCount, es[0].event)
     && BatchRun(BatchApply(chains, recordCount, es[0]), recordCount, es[1..]))
  }

  function BatchApply(chains: seq<Chain>, recordCount: int, e: BatchEvent): seq<Chain>
    requires e.partition < |chains| && Enabled(chains[e.partition], recordCount, e.event)
  {
    chains[e.partition := Apply(chains[e.partition], recordCount, e.event)]
  }

  function BatchExec(chains: seq<Chain>, recordCount: int, es: seq<BatchEvent>): seq<Chain>
    requires BatchRun(chains, recordCount, es)
    decreases |es|
  {
    if es == [] then chains else BatchExec(BatchApply(chains, recordCount, es[0]), recordCount, es[1..])
  }

  function StartAll(windows: seq<Input>): seq<Chain> {
    seq(|windows|, i requires 0 <= i < |windows| => NewChain(windows[i]))
  }

  predicate AllReturned(chains: seq<Chain>) {
    forall i | 0 <= i < |chains| :: chains[i].window.pc.Returned?
  }

  /** The batch returns the sum of what its windows return. */
  function Results(chains: seq<Chain>): seq<int>
    requires AllReturned(chains)
  {
    seq(|chains|, i requires 0 <= i < |chains| => chains[i].window.pc.result)
  }

  predicate AllInvariant(chains: seq<Chain>, windows: seq<Input>) {
    && |chains| == |windows|
    && (forall i | 0 <= i < |chains| :: Invariant(chains[i], windows[i].offset))
    && (forall i | 0 <= i < |chains| :: chains[i].window.input.maximum == windows[i].maximum)
  }

  lemma {:induction false} BatchKeepsInvariant(chains: seq<Chain>, windows: seq<Input>, recordCount: int,
        es: seq<BatchEvent>)
    requires AllInvariant(chains, windows) && BatchRun(chains, recordCount, es)
    ensures AllInvariant(BatchExec(chains, recordCount, es), windows)
    decreases |es|
  {
    if es != [] {
      var k := es[0].partition;
      StepKeepsInvariant(chains[k], recordCount, windows[k].offset, es[0].event);
      BatchKeepsInvariant(BatchApply(chains, recordCount, es[0]), windows, recordCount, es[1..]);
    }
  }

  /** Adjacent ranges add up to the distance they cover. */
  lemma {:induction false} RangesAddUp(windows: seq<Input>, xs: seq<int>, n: nat)
    requires n <= |windows| == |xs|
    requires forall i | 0 <= i < |windows| :: xs[i] == windows[i].maximum - windows[i].offset
    requires forall i | 0 <= i < |windows| - 1 :: windows[i].maximum == windows[i + 1].offset
    ensures n > 0 ==> Sum(xs[..n]) == windows[n - 1].maximum - windows[0].offset
    decreases n
  {
    if n > 0 {
      RangesAddUp(windows, xs, n - 1);
      assert xs[..n][..n - 1] == xs[..n - 1];
    }
  }

  /** The partition that a record belongs to. */
  lemma {:induction false} PartitionOf(windows: seq<Input>, id: int, n: nat) returns (i: nat)
    requires 0 < n <= |windows|
    requires forall i | 0 <= i < |windows| - 1 :: windows[i].maximum == windows[i + 1].offset
    requires windows[0].offset <= id < windows[n - 1].maximum
    ensures i < n && windows[i].offset <= id < windows[i].maximum
    decreases n
  {
    if n == 1 || windows[n - 1].offset <= id {
      i := n - 1;
    } else {
      i := PartitionOf(windows, id, n - 1);
    }
  }

  /**
   Main result: whenever the batch returns, its result is the record count and every record's
   child has reported, for any interleaving, delay and repetition of completion signals.
   */
  lemma BatchReturnsRecordCount(input: BatchInput, recordCount: int, windows: seq<Input>, es: seq<BatchEvent>,
        chains: seq<Chain>)
    requires recordCount >= 0 && 1 <= input.partitions
    requires MakePlan(input, recordCount) == Planned(windows)
    requires BatchRun(StartAll(windows), recordCount, es) && chains == BatchExec(StartAll(windows), recordCount, es)
    requires AllReturned(chains)
    ensures Sum(Results(chains)) == recordCount
    ensures forall id | 0 <= id < recordCount :: Reported(chains, windows, id)
  {
    PlanTiles(input, recordCount);
    StartInvariant(windows);
    BatchKeepsInvariant(StartAll(windows), windows, recordCount, es);
    WindowsReturn(chains, windows, recordCount);
  }

  lemma StartInvariant(windows: seq<Input>)
    requires forall i | 0 <= i < |windows| :: IsFresh(windows[i])
    ensures AllInvariant(StartAll(windows), windows)
  {
    forall i | 0 <= i < |windows|
      ensures Invariant(NewChain(windows[i]), windows[i].offset)
    {
    }
  }

  lemma WindowsReturn(chains: seq<Chain>, windows: seq<Input>, recordCount: int)
    requires AllInvariant(chains, windows) && AllReturned(chains) && Tiles(windows, recordCount)
    ensures Sum(Results(chains)) == recordCount
    ensures forall id | 0 <= id < recordCount :: Reported(chains, windows, id)
  {
    forall i | 0 <= i < |chains|
      ensures Results(chains)[i] == windows[i].maximum - windows[i].offset
    {
      WindowReturns(chains[i], windows[i]);
    }
    RangesAddUp(windows, Results(chains), |windows|);
    assert Results(chains)[..|windows|] == Results(chains);
    forall id | 0 <= id < recordCount
      ensures Reported(chains, windows, id)
    {
      var i := PartitionOf(windows, id, |windows|);
      WindowReturns(chains[i], windows[i]);
    }
  }

  /** The child of the record has signalled its completion to the window of its partition. */
  predicate Reported(chains: seq<Chain>, windows: seq<Input>, id: int) {
    exists i | 0 <= i < |chains| && i < |windows| ::
      windows[i].offset <= id < windows[i].maximum && id in chains[i].reported
  }

  lemma WindowReturns(c: Chain, input: Input)
    requires Invariant(c, input.offset) && c.window.pc.Returned? && c.window.input.maximum == input.maximum
    requires input.offset <= input.maximum
    ensures c.window.pc.result == input.maximum - input.offset
    ensures forall id | input.offset <= id < input.maximum :: id in c.reported
  {
    forall id | input.offset <= id < input.maximum
      ensures id in c.reported
    {
      RangeContains(input.offset, Next(c.window), id);
    }
  }

  /**
   Exactly when a returning batch has counted every record: there is at least one partition, or
   there is no record.
   */
  lemma CorrectIffPartitioned(input: BatchInput, recordCount: int, windows: seq<Input>, es: seq<BatchEvent>,
        chains: seq<Chain>)
    requires recordCount >= 0 && MakePlan(input, recordCount) == Planned(windows)
    requires BatchRun(StartAll(windows), recordCount, es) && chains == BatchExec(StartAll(windows), recordCount, es)
    requires AllReturned(chains)
    ensures Sum(Results(chains)) == recordCount <==> input.partitions >= 1 || recordCount == 0
    ensures input.partitions < 1 ==> windows == [] && Sum(Results(chains)) == 0
  {
    if input.partitions >= 1 {
      BatchReturnsRecordCount(input, recordCount, windows, es, chains);
    } else {
      NothingPlanned(recordCount, es);
    }
  }

  /** Without a partition nothing happens: the batch returns at once. */
  lemma NothingPlanned(recordCount: int, es: seq<BatchEvent>)
    requires BatchRun([], recordCount, es)
    ensures es == [] && BatchExec([], recordCount, es) == [] && StartAll([]) == []
  {
  }
}
