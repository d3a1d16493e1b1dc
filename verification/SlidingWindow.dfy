/**
 One partition of the batch: a chain of SlidingWindowWorkflow runs and the children it starts
 (batch_sliding_window/sliding_window_workflow.py, record_loader_activity.py,
 record_processor_workflow.py).

 A child exists from the moment its start is requested, which may be before the request is
 accepted. It signals its completion once it is done; that signal may reach the window at any
 later time and any number of times, in whichever run is current then.
 */
module SlidingWindow {
  import opened Wrappers

  datatype Input = Input(pageSize: int, windowSize: int, offset: int, maximum: int, progress: int, current: set<int>)

  // ---------- Loading a page ----------

  function Min(a: int, b: int): int {
    if a < b then a else b
  }

  function Max(a: int, b: int): int {
    if a < b then b else a
  }

  /** The numbers from lo up to and not including hi. */
  function Range(lo: int, hi: int): seq<int> {
    seq(Max(0, hi - lo), i => lo + i)
  }

  /** The activity get_records: a page is refused when the upper bound is beyond the record count. */
  function GetRecords(recordCount: int, pageSize: int, offset: int, maximum: int): Option<seq<int>> {
    if maximum > recordCount then None else Some(Range(offset, Min(offset + pageSize, maximum)))
  }

  // ---------- A run ----------

  datatype Pc =
    | Loading               // the page of this run
    | Looping               // over the records of the page
    | Starting              // the child of the first remaining record
    | Draining              // no record is left: waiting for the children
    | Returned(result: int)

  /** The fields of the workflow object, the local variables of its coroutine and its input. */
  datatype Window = Window(
    input: Input,
    current: set<int>,
    progress: int,
    started: int,
    records: seq<int>,
    pc: Pc)

  function NewRun(input: Input): Window {
    Window(input, input.current, input.progress, 0, [], Loading)
  }

  /** No page is asked for once the offset has reached the maximum. */
  predicate PageAvailable(w: Window, recordCount: int) {
    w.input.offset < w.input.maximum ==>
      GetRecords(recordCount, w.input.pageSize, w.input.offset, w.input.maximum).Some?
  }

  function LoadPage(w: Window, recordCount: int): Window
    requires PageAvailable(w, recordCount)
  {
    var page :=
      if w.input.offset < w.input.maximum
      then GetRecords(recordCount, w.input.pageSize, w.input.offset, w.input.maximum).value
      else [];
    w.(records := page, pc := Looping)
  }

  predicate HasCapacity(w: Window) {
    |w.current| < w.input.windowSize
  }

  function RequestStart(w: Window): Window
    requires w.records != []
  {
    w.(current := w.current + {w.records[0]}, pc := Starting)
  }

  function StartAccepted(w: Window): Window
    requires w.records != []
  {
    w.(started := w.started + 1, records := w.records[1..], pc := Looping)
  }

  predicate ContinuesAsNew(w: Window) {
    w.input.offset + w.started < w.input.maximum
  }

  function NextInput(w: Window): Input {
    w.input.(offset := w.input.offset + w.started, progress := w.progress, current := w.current)
  }

  function EndOfPage(w: Window): Window {
    if ContinuesAsNew(w) then NewRun(NextInput(w)) else w.(pc := Draining)
  }

  /** A repeated completion signal is recognised by its record being gone from the window. */
  function Complete(w: Window, id: int): Window {
    if id in w.current then w.(current := w.current - {id}, progress := w.progress + 1) else w
  }

  // ---------- The chain of runs and its children ----------

  /** requested: the children started by the chain, in order; reported: those that have signalled. */
  datatype Chain = Chain(window: Window, runs: nat, requested: seq<int>, reported: set<int>)

  datatype Event = PageLoaded | Requested | Accepted | PageEnded | Drained | ChildReports(id: int) | Delivered(id: int)

  predicate Enabled(c: Chain, recordCount: int, e: Event) {
    match e
    case PageLoaded => c.window.pc.Loading? && PageAvailable(c.window, recordCount)
    case Requested => c.window.pc.Looping? && c.window.records != [] && HasCapacity(c.window)
    case Accepted => c.window.pc.Starting? && c.window.records != []
    case PageEnded => c.window.pc.Looping? && c.window.records == []
    case Drained => c.window.pc.Draining? && c.window.current == {}
    case ChildReports(id) => id in c.requested
    case Delivered(id) => id in c.reported && !c.window.pc.Returned?
  }

  function Apply(c: Chain, recordCount: int, e: Event): Chain
    requires Enabled(c, recordCount, e)
  {
    var w := c.window;
    match e
    case PageLoaded => c.(window := LoadPage(w, recordCount))
    case Requested => c.(window := RequestStart(w), requested := c.requested + [w.records[0]])
    case Accepted => c.(window := StartAccepted(w))
    case PageEnded => c.(window := EndOfPage(w), runs := if ContinuesAsNew(w) then c.runs + 1 else c.runs)
    case Drained => c.(window := w.(pc := Returned(w.progress)))
    case ChildReports(id) => c.(reported := c.reported + {id})
    case Delivered(id) => c.(window := Complete(w, id))
  }

  function NewChain(input: Input): Chain {
    Chain(NewRun(input), 1, [], {})
  }

  predicate IsFresh(input: Input) {
    input.progress == 0 && input.current == {}
  }

  predicate Run(c: Chain, recordCount: int, es: seq<Event>)
    decreases |es|
  {
    es == [] || (Enabled(c, recordCount, es[0]) && Run(Apply(c, recordCount, es[0]), recordCount, es[1..]))
  }

  function Exec(c: Chain, recordCount: int, es: seq<Event>): Chain
    requires Run(c, recordCount, es)
    decreases |es|
  {
    if es == [] then c else Exec(Apply(c, recordCount, es[0]), recordCount, es[1..])
  }

  // ---------- The invariant of a chain ----------

  /** The chain was started on the records from first to maximum. */
  function Bound(first: int, input: Input): int {
    Max(first, input.maximum)
  }

  /** The next record for which no child has been requested. */
  function Next(w: Window): int {
    w.input.offset + w.started + if w.pc.Starting? then 1 else 0
  }

  /** The ids requested so far are exactly first, first + 1, ..., and what is left of the page follows. */
  predicate InOrder(c: Chain, first: int) {
    var w := c.window;
    && first <= w.input.offset && 0 <= w.started
    && Next(w) <= Bound(first, w.input)
    && c.requested == Range(first, Next(w))
    && w.records == Range(w.input.offset + w.started, w.input.offset + w.started + |w.records|)
    && w.input.offset + w.started + |w.records| <= Bound(first, w.input)
    && (w.pc.Starting? ==> w.records != [])
  }

  /**
   Every admitted record is either in the window or counted, and those whose child has not reported
   are in the window.
   */
  predicate Counted(c: Chain) {
    var w := c.window;
    && w.progress + |w.current| == |c.requested|
    && (forall id | id in w.current :: id in c.requested)
    && (forall id | id in c.requested && id !in c.reported :: id in w.current)
    && (forall id | id in c.reported :: id in c.requested)
    && |w.current| <= Max(0, w.input.windowSize)
  }

  predicate Paged(c: Chain, first: int) {
    var w := c.window;
    match w.pc
    case Loading =>
      && w.started == 0 && w.records == []
      && (w.input.offset == first || w.input.offset < w.input.maximum)
    case Looping => Bounded(c, first)
    case Starting => Bounded(c, first)
    case Draining => !ContinuesAsNew(w) && w.records == [] && Bounded(c, first)
    case Returned(r) => !ContinuesAsNew(w) && w.current == {} && r == w.progress && w.records == [] && Bounded(c, first)
  }

  /** Started and remaining records make up the page of this run. */
  predicate Bounded(c: Chain, first: int) {
    var w := c.window;
    && w.started + |w.records| == Max(0, Min(w.input.pageSize, w.input.maximum - w.input.offset))
    && (w.input.offset == first || w.input.offset < w.input.maximum)
  }

  predicate Invariant(c: Chain, first: int) {
    InOrder(c, first) && Counted(c) && Paged(c, first)
  }

  lemma RangeContains(lo: int, hi: int, x: int)
    ensures x in Range(lo, hi) <==> lo <= x < hi
  {
    if lo <= x < hi {
      assert Range(lo, hi)[x - lo] == x;
    }
  }

  /**
   A page is refused exactly when its upper bound is too high; it holds the next records, at most a
   page of them, none beyond the bound.
   */
  lemma PageContents(recordCount: int, pageSize: int, offset: int, maximum: int, id: int)
    ensures var page := GetRecords(recordCount, pageSize, offset, maximum);
            && (page.None? <==> maximum > recordCount)
            && (page.Some? ==> |page.value| <= Max(0, pageSize))
            && (page.Some? ==> (id in page.value <==> offset <= id < offset + pageSize && id < maximum))
            && (page.Some? && id in page.value && id + 1 in page.value ==>
                  page.value[id - offset] == id && page.value[id + 1 - offset] == id + 1)
  {
    RangeContains(offset, Min(offset + pageSize, maximum), id);
    RangeContains(offset, Min(offset + pageSize, maximum), id + 1);
  }

  lemma RequestKeeps(c: Chain, recordCount: int, first: int)
    requires Invariant(c, first) && Enabled(c, recordCount, Requested)
    ensures Invariant(Apply(c, recordCount, Requested), first)
  {
    var w := c.window;
    var c' := Apply(c, recordCount, Requested);
    var id := w.records[0];
    assert id == Next(w);
    RangeContains(first, Next(w), id);
    assert id !in c.requested && id !in w.current;
    assert c'.requested == Range(first, Next(c'.window));
    assert c'.requested[|c.requested|] == id;
    assert forall x | x in c.requested :: x in c'.requested;
  }

  lemma AcceptKeeps(c: Chain, recordCount: int, first: int)
    requires Invariant(c, first) && Enabled(c, recordCount, Accepted)
    ensures Invariant(Apply(c, recordCount, Accepted), first)
  {
    var w := c.window;
    assert w.records[1..] == Range(w.input.offset + w.started + 1, w.input.offset + w.started + |w.records|);
  }

  lemma StepKeepsInvariant(c: Chain, recordCount: int, first: int, e: Event)
    requires Invariant(c, first) && Enabled(c, recordCount, e)
    ensures Invariant(Apply(c, recordCount, e), first)
  {
    match e
    case PageLoaded => LoadKeeps(c, recordCount, first);
    case Requested => RequestKeeps(c, recordCount, first);
    case Accepted => AcceptKeeps(c, recordCount, first);
    case Delivered(id) => DeliveryKeeps(c, recordCount, first, id);
    case PageEnded => EndKeeps(c, recordCount, first);
    case _ =>
  }

  lemma LoadKeeps(c: Chain, recordCount: int, first: int)
    requires Invariant(c, first) && Enabled(c, recordCount, PageLoaded)
    ensures Invariant(Apply(c, recordCount, PageLoaded), first)
  {
  }

  lemma DeliveryKeeps(c: Chain, recordCount: int, first: int, id: int)
    requires Invariant(c, first) && Enabled(c, recordCount, Delivered(id))
    ensures Invariant(Apply(c, recordCount, Delivered(id)), first)
  {
  }

  lemma EndKeeps(c: Chain, recordCount: int, first: int)
    requires Invariant(c, first) && Enabled(c, recordCount, PageEnded)
    ensures Invariant(Apply(c, recordCount, PageEnded), first)
  {
  }

  lemma {:induction false} RunKeepsInvariant(c: Chain, recordCount: int, first: int, es: seq<Event>)
    requires Invariant(c, first) && Run(c, recordCount, es)
    ensures Invariant(Exec(c, recordCount, es), first)
    ensures Bound(first, Exec(c, recordCount, es).window.input) == Bound(first, c.window.input)
    decreases |es|
  {
    if es != [] {
      StepKeepsInvariant(c, recordCount, first, es[0]);
      RunKeepsInvariant(Apply(c, recordCount, es[0]), recordCount, first, es[1..]);
    }
  }

  // ---------- Main results about one partition ----------

  /**
   In every state of every run, progress and the window together account for every record
   admitted since the chain began; a child that has not reported is in the window, whose size
   never exceeds its limit; and the children requested are the first records, each once, in order.
   */
  lemma Ledger(input: Input, recordCount: int, es: seq<Event>)
    requires IsFresh(input) && Run(NewChain(input), recordCount, es)
    ensures var c := Exec(NewChain(input), recordCount, es); var w := c.window;
            && w.progress + |w.current| == |c.requested|
            && (forall id | id in c.requested && id !in c.reported :: id in w.current)
            && |w.current| <= Max(0, w.input.windowSize)
            && c.requested == Range(input.offset, input.offset + |c.requested|)
            && |c.requested| <= Max(0, input.maximum - input.offset)
  {
    RunKeepsInvariant(NewChain(input), recordCount, input.offset, es);
  }

  /**
   When the chain returns, it returns the number of its records, all were started once and in order,
   and all have reported.
   */
  lemma ReturnsAll(input: Input, recordCount: int, es: seq<Event>)
    requires IsFresh(input) && Run(NewChain(input), recordCount, es)
    requires Exec(NewChain(input), recordCount, es).window.pc.Returned?
    ensures var c := Exec(NewChain(input), recordCount, es);
            && c.window.pc.result == Max(0, input.maximum - input.offset)
            && c.requested == Range(input.offset, input.maximum)
            && (forall id | input.offset <= id < input.maximum :: id in c.reported)
  {
    var c := Exec(NewChain(input), recordCount, es);
    RunKeepsInvariant(NewChain(input), recordCount, input.offset, es);
    assert c.requested == Range(input.offset, Bound(input.offset, input)) == Range(input.offset, input.maximum);
    forall id | input.offset <= id < input.maximum
      ensures id in c.reported
    {
      RangeContains(input.offset, input.maximum, id);
    }
  }
}
