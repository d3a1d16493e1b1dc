/** Exactly when the batch can return, and that it can then return from every state it reaches. */
module BatchProgress {
  import opened SlidingWindow
  import opened WindowProgress
  import opened Batch

  predicate AllOnTrack(chains: seq<Chain>, windows: seq<Input>) {
    |chains| == |windows| && forall i | 0 <= i < |chains| :: OnTrack(chains[i], windows[i])
  }

  lemma {:induction false} BatchKeepsTrack(chains: seq<Chain>, windows: seq<Input>, recordCount: int,
        es: seq<BatchEvent>)
    requires AllOnTrack(chains, windows) && BatchRun(chains, recordCount, es)
    ensures AllOnTrack(BatchExec(chains, recordCount, es), windows)
    decreases |es|
  {
    if es != [] {
      var k := es[0].partition;
      StepKeepsTrack(chains[k], windows[k], recordCount, es[0].event);
      BatchKeepsTrack(BatchApply(chains, recordCount, es[0]), windows, recordCount, es[1..]);
    }
  }

  /** The events of one partition, as events of the batch. */
  function Of(k: nat, es: seq<Event>): seq<BatchEvent> {
    seq(|es|, i requires 0 <= i < |es| => BatchEvent(k, es[i]))
  }

  lemma {:induction false} RunPartition(chains: seq<Chain>, recordCount: int, k: nat, es: seq<Event>)
    requires k < |chains| && Run(chains[k], recordCount, es)
    ensures BatchRun(chains, recordCount, Of(k, es))
    ensures BatchExec(chains, recordCount, Of(k, es)) == chains[k := Exec(chains[k], recordCount, es)]
    decreases |es|
  {
    if es != [] {
      var chains' := chains[k := Apply(chains[k], recordCount, es[0])];
      RunPartition(chains', recordCount, k, es[1..]);
      assert Of(k, es)[1..] == Of(k, es[1..]);
      assert Of(k, es)[0] == BatchEvent(k, es[0]);
    }
  }

  lemma {:induction false} Append(chains: seq<Chain>, recordCount: int, es: seq<BatchEvent>, more: seq<BatchEvent>)
    requires BatchRun(chains, recordCount, es) && BatchRun(BatchExec(chains, recordCount, es), recordCount, more)
    ensures BatchRun(chains, recordCount, es + more)
    ensures BatchExec(chains, recordCount, es + more)
            == BatchExec(BatchExec(chains, recordCount, es), recordCount, more)
    decreases |es|
  {
    if es == [] {
      assert es + more == more;
    } else {
      var next := BatchApply(chains, recordCount, es[0]);
      Append(next, recordCount, es[1..], more);
      assert (es + more)[0] == es[0] && (es + more)[1..] == es[1..] + more;
      assert BatchExec(chains, recordCount, es) == BatchExec(next, recordCount, es[1..]);
      assert BatchExec(chains, recordCount, es + more) == BatchExec(next, recordCount, es[1..] + more);
    }
  }

  /** The partitions can be run to their return one after the other; the first k have returned. */
  lemma {:induction false} FinishFrom(chains: seq<Chain>, windows: seq<Input>, recordCount: int, k: nat)
    returns (es: seq<BatchEvent>)
    requires AllOnTrack(chains, windows) && k <= |chains|
    requires forall i | 0 <= i < |windows| :: Returnable(windows[i], recordCount)
    requires forall i | 0 <= i < k :: chains[i].window.pc.Returned?
    ensures BatchRun(chains, recordCount, es) && AllReturned(BatchExec(chains, recordCount, es))
    decreases |chains| - k
  {
    es := [];
    if k < |chains| {
      var own := CanFinish(chains[k], windows[k], recordCount);
      RunPartition(chains, recordCount, k, own);
      RunKeepsTrack(chains[k], windows[k], recordCount, own);
      var rest := FinishFrom(chains[k := Exec(chains[k], recordCount, own)], windows, recordCount, k + 1);
      Append(chains, recordCount, Of(k, own), rest);
      es := Of(k, own) + rest;
    }
  }

  /** At least one page fits, or there is nothing to do. */
  predicate BatchReturnable(input: BatchInput, recordCount: int) {
    input.partitions < 1 || input.pageSize >= 1 || recordCount == 0
  }

  lemma PlanReturnable(input: BatchInput, recordCount: int, windows: seq<Input>, i: nat)
    requires recordCount >= 0 && MakePlan(input, recordCount) == Planned(windows) && i < |windows|
    requires BatchReturnable(input, recordCount)
    ensures IsFresh(windows[i]) && Returnable(windows[i], recordCount) && Sized(windows[i])
  {
    PlanTiles(input, recordCount);
    PartsAddUp(recordCount, input.partitions);
  }

  /** A batch that is returnable can be run to its return from every state it reaches. */
  lemma BatchCanAlwaysReturn(input: BatchInput, recordCount: int, windows: seq<Input>, es: seq<BatchEvent>)
    returns (more: seq<BatchEvent>)
    requires recordCount >= 0 && MakePlan(input, recordCount) == Planned(windows)
    requires BatchReturnable(input, recordCount) && BatchRun(StartAll(windows), recordCount, es)
    ensures var chains := BatchExec(StartAll(windows), recordCount, es);
            BatchRun(chains, recordCount, more) && AllReturned(BatchExec(chains, recordCount, more))
  {
    forall i | 0 <= i < |windows|
      ensures Returnable(windows[i], recordCount) && OnTrack(StartAll(windows)[i], windows[i])
    {
      PlanReturnable(input, recordCount, windows, i);
    }
    BatchKeepsTrack(StartAll(windows), windows, recordCount, es);
    more := FinishFrom(BatchExec(StartAll(windows), recordCount, es), windows, recordCount, 0);
  }

  lemma {:induction false} StuckPartitionStays(chains: seq<Chain>, input: Input, recordCount: int, k: nat,
        es: seq<BatchEvent>)
    requires k < |chains| && IsFresh(input) && !Returnable(input, recordCount) && Stuck(chains[k], input, recordCount)
    requires BatchRun(chains, recordCount, es)
    ensures |BatchExec(chains, recordCount, es)| == |chains|
    ensures Stuck(BatchExec(chains, recordCount, es)[k], input, recordCount)
    decreases |es|
  {
    if es != [] {
      if es[0].partition == k {
        StuckStep(chains[k], input, recordCount, es[0].event);
      }
      StuckPartitionStays(BatchApply(chains, recordCount, es[0]), input, recordCount, k, es[1..]);
    }
  }

  predicate BatchReturns(windows: seq<Input>, recordCount: int, es: seq<BatchEvent>) {
    BatchRun(StartAll(windows), recordCount, es) && AllReturned(BatchExec(StartAll(windows), recordCount, es))
  }

  /** A batch whose children have been planned has a returning run if and only if it is returnable. */
  lemma BatchReturnsIff(input: BatchInput, recordCount: int, windows: seq<Input>)
    requires recordCount >= 0 && MakePlan(input, recordCount) == Planned(windows)
    ensures (exists es :: BatchReturns(windows, recordCount, es)) <==> BatchReturnable(input, recordCount)
  {
    if BatchReturnable(input, recordCount) {
      var es := BatchCanAlwaysReturn(input, recordCount, windows, []);
      assert BatchReturns(windows, recordCount, es);
    } else {
      PlanTiles(input, recordCount);
      var k := PartitionOf(windows, 0, |windows|);
      forall es
        ensures !BatchReturns(windows, recordCount, es)
      {
        if BatchReturns(windows, recordCount, es) {
          StuckPartitionStays(StartAll(windows), windows[k], recordCount, k, es);
        }
      }
    }
  }
}
