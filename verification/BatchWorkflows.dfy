/** The workflows of the sliding-window batch as objects; each method is the code between two awaits. */
module BatchWorkflows {
  import opened Wrappers
  import opened SlidingWindow
  import opened Batch

  /** One run; the run after a continue-as-new is a new object made from the returned input. */
  class SlidingWindowWorkflow {
    const input: Input
    var currentRecords: set<int>
    var progress: int
    var childrenStartedByThisRun: seq<int>
    var records: seq<int>
    var pc: Pc

    ghost function View(): Window
      reads this
    {
      Window(input, currentRecords, progress, |childrenStartedByThisRun|, records, pc)
    }

    constructor (input: Input)
      ensures View() == NewRun(input)
    {
      this.input := input;
      currentRecords := input.current;
      progress := input.progress;
      childrenStartedByThisRun := [];
      records := [];
      pc := Loading;
    }

    /** The page has been loaded, when one had to be. */
    method BeginLoop(page: Option<seq<int>>, ghost recordCount: int)
      requires pc.Loading? && PageAvailable(View(), recordCount)
      requires page == if input.offset < input.maximum
                       then GetRecords(recordCount, input.pageSize, input.offset, input.maximum) else None
      modifies this
      ensures View() == LoadPage(old(View()), recordCount)
    {
      records := [];
      if input.offset < input.maximum {
        records := page.value;
      }
      pc := Looping;
    }

    /** There is capacity: the next record enters the window before its child is started. */
    method StartChild() returns (record: int)
      requires pc.Looping? && records != [] && HasCapacity(View())
      modifies this
      ensures View() == RequestStart(old(View()))
      ensures record == old(records)[0] && record in currentRecords
    {
      record := records[0];
      currentRecords := currentRecords + {record};
      pc := Starting;
    }

    method ChildStarted(handle: int)
      requires pc.Starting? && records != []
      modifies this
      ensures View() == SlidingWindow.StartAccepted(old(View()))
    {
      childrenStartedByThisRun := childrenStartedByThisRun + [handle];
      records := records[1..];
      pc := Looping;
    }

    /** The page is exhausted: either the input of the next run, or the wait for the last children. */
    method ContinueAsNewOrDrain() returns (next: Option<Input>)
      requires pc.Looping? && records == []
      modifies this
      ensures next.Some? <==> ContinuesAsNew(old(View()))
      ensures next.Some? ==> View() == old(View()) && EndOfPage(old(View())) == NewRun(next.value)
      ensures next.None? ==> View() == EndOfPage(old(View()))
    {
      var newOffset := input.offset + |childrenStartedByThisRun|;
      if newOffset < input.maximum {
        next := Some(Input(input.pageSize, input.windowSize, newOffset, input.maximum, progress, currentRecords));
      } else {
        pc := Draining;
        next := None;
      }
    }

    method HandleCompletionSignal(recordId: int)
      modifies this
      ensures View() == Complete(old(View()), recordId)
      ensures recordId !in currentRecords
    {
      if recordId in currentRecords {
        currentRecords := currentRecords - {recordId};
        progress := progress + 1;
      }
    }
  }

  class ProcessBatchWorkflow {

    constructor () {
    }

    /**
     Divides a number as evenly as possible; no parts at all is a division by zero, a negative count
     an empty list.
     */
    method DivideIntoPartitions(number: int, n: int) returns (parts: Option<seq<int>>)
      ensures parts == Batch.DivideIntoPartitions(number, n)
      ensures n >= 1 ==> parts.Some? && Sum(parts.value) == number
    {
      if n == 0 {
        return None;
      }
      if n < 0 {
        return Some([]);
      }
      var base := number / n;
      var remainder := number % n;
      var partitions := new int[n](_ => base);
      var i := 0;
      while i < remainder
        invariant 0 <= i <= remainder
        invariant forall k | 0 <= k < n :: partitions[k] == base + if k < i then 1 else 0
      {
        partitions[i] := partitions[i] + 1;
        i := i + 1;
      }
      PartsAddUp(number, n);
      assert partitions[..] == Shares(number, n, n);
      parts := Some(partitions[..]);
    }

    /** The inputs of the children, or the error that ends the batch before any child starts. */
    method PlanChildren(input: BatchInput, recordCount: int) returns (plan: Plan)
      ensures plan == MakePlan(input, recordCount)
    {
      if input.windowSize < input.partitions {
        return WindowTooSmall;
      }
      var partitions := DivideIntoPartitions(recordCount, input.partitions);
      var windowSizes := DivideIntoPartitions(input.windowSize, input.partitions);
      if partitions.None? || windowSizes.None? {
        return DivisionByZero;
      }
      var children: seq<Input> := [];
      var offset := 0;
      var i := 0;
      while i < input.partitions
        invariant 0 <= i && (input.partitions > 0 ==> i <= input.partitions)
        invariant input.partitions < 0 ==> i == 0
        invariant i == |children|
        invariant input.partitions > 0 ==> offset == Sum(Shares(recordCount, input.partitions, i))
        invariant forall k | 0 <= k < i :: children[k] == PartitionInput(input, recordCount, k)
      {
        var maximum := offset + partitions.value[i];
        if maximum > recordCount {
          maximum := recordCount;
        }
        children := children + [Input(input.pageSize, windowSizes.value[i], offset, maximum, 0, {})];
        assert Shares(recordCount, input.partitions, i + 1)[..i] == Shares(recordCount, input.partitions, i);
        offset := offset + partitions.value[i];
        i := i + 1;
      }
      plan := Planned(children);
    }

    /** The children have returned: their results are added up. */
    method AddResults(results: seq<int>) returns (total: int)
      ensures total == Sum(results)
    {
      total := 0;
      var i := 0;
      while i < |results|
        invariant 0 <= i <= |results|
        invariant total == Sum(results[..i])
      {
        assert results[..i + 1][..i] == results[..i];
        total := total + results[i];
        i := i + 1;
      }
      assert results[..i] == results;
    }
  }
}
