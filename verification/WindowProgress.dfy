/**
 How long a partition of the batch takes: the number of its runs, the number of steps that change
 it, and exactly when it can return.
 */
module WindowProgress {
  import opened SlidingWindow

  // ---------- The number of runs ----------

  function CeilDiv(a: int, b: int): int
    requires b > 0
  {
    (a + b - 1) / b
  }

  lemma CeilDivUnique(a: int, b: int, n: int)
    requires b > 0 && (n - 1) * b < a <= n * b
    ensures CeilDiv(a, b) == n
  {
    var r := a + b - 1 - n * b;
    assert (n - 1) * b == n * b - b;
    assert 0 <= r < b;
    QuotientUnique(n, b, r);
  }

  lemma QuotientUnique(n: int, b: int, r: int)
    requires 0 <= r < b
    ensures (n * b + r) / b == n
  {
    var q := (n * b + r) / b;
    assert -b < (q - n) * b < b by {
      assert q * b <= n * b + r < q * b + b;
      assert (q - n) * b == q * b - n * b;
    }
    SmallMultiple(q - n, b);
  }

  lemma SmallMultiple(k: int, b: int)
    requires b > 0 && -b < k * b < b
    ensures k == 0
  {
  }

  lemma CeilDivSign(a: int, b: int)
    ensures b > 0 ==> (CeilDiv(a, b) >= 1 <==> a >= 1)
  {
  }

  lemma CeilDivAbove(a: int, b: int, n: int)
    requires b > 0 && n * b < a
    ensures n < CeilDiv(a, b)
  {
    var q, r := (a + b - 1) / b, (a + b - 1) % b;
    assert q * b + r == a + b - 1;
    assert (q - n) * b == q * b - n * b > 0;
  }

  /** The number of runs a chain needs; without a page size only a chain without records is sized. */
  predicate Sized(input: Input) {
    input.pageSize >= 1 || input.offset >= input.maximum
  }

  function RunCount(input: Input): int
    requires Sized(input)
  {
    if input.offset >= input.maximum then 1 else CeilDiv(input.maximum - input.offset, input.pageSize)
  }

  function RecordsOf(input: Input): nat {
    Max(0, input.maximum - input.offset)
  }

  /** Each run but the last starts a full page. */
  predicate PagesDone(c: Chain, input: Input) {
    && c.window.input.offset == input.offset + (c.runs - 1) * input.pageSize
    && c.runs >= 1
    && (c.runs > 1 ==> c.window.input.offset < input.maximum)
    && c.window.input.pageSize == input.pageSize && c.window.input.maximum == input.maximum
    && c.window.input.windowSize == input.windowSize
  }

  /** What holds of a chain that was started on the input. */
  predicate OnTrack(c: Chain, input: Input) {
    Sized(input) && Invariant(c, input.offset) && PagesDone(c, input)
  }

  lemma StepKeepsTrack(c: Chain, input: Input, recordCount: int, e: Event)
    requires OnTrack(c, input) && Enabled(c, recordCount, e)
    ensures OnTrack(Apply(c, recordCount, e), input)
  {
    StepKeepsInvariant(c, recordCount, input.offset, e);
    if e.PageEnded? && ContinuesAsNew(c.window) {
      assert c.window.started == input.pageSize;
      assert (c.runs - 1) * input.pageSize + input.pageSize == c.runs * input.pageSize;
    }
  }

  lemma {:induction false} RunKeepsTrack(c: Chain, input: Input, recordCount: int, es: seq<Event>)
    requires OnTrack(c, input) && Run(c, recordCount, es)
    ensures OnTrack(Exec(c, recordCount, es), input)
    decreases |es|
  {
    if es != [] {
      StepKeepsTrack(c, input, recordCount, es[0]);
      RunKeepsTrack(Apply(c, recordCount, es[0]), input, recordCount, es[1..]);
    }
  }

  lemma RunsOnTrack(c: Chain, input: Input)
    requires OnTrack(c, input)
    ensures 1 <= c.runs <= RunCount(input)
    ensures c.window.pc.Returned? ==> c.runs == RunCount(input)
  {
    var d, p, n := input.maximum - input.offset, input.pageSize, c.runs;
    if d > 0 {
      assert (n - 1) * p + p == n * p;
      if n > 1 {
        CeilDivAbove(d, p, n - 1);
      } else {
        CeilDivAbove(d, p, 0);
      }
      if c.window.pc.Returned? {
        CeilDivUnique(d, p, n);
      }
    }
  }

  /** A chain that returns had one run per page of its records, and one run when it had none. */
  lemma ChainLength(input: Input, recordCount: int, es: seq<Event>)
    requires IsFresh(input) && Run(NewChain(input), recordCount, es)
    requires Exec(NewChain(input), recordCount, es).window.pc.Returned?
    ensures Sized(input) && Exec(NewChain(input), recordCount, es).runs == RunCount(input)
    ensures input.pageSize >= 1 ==>
              Exec(NewChain(input), recordCount, es).runs
              == Max(1, CeilDiv(input.maximum - input.offset, input.pageSize))
  {
    if !Sized(input) {
      NeverReturns(input, recordCount, es);
    } else {
      RunKeepsTrack(NewChain(input), input, recordCount, es);
      RunsOnTrack(Exec(NewChain(input), recordCount, es), input);
      CeilDivSign(input.maximum - input.offset, input.pageSize);
    }
  }

  // ---------- Counting the steps that change a chain ----------

  function ChangingSteps(c: Chain, recordCount: int, es: seq<Event>): nat
    requires Run(c, recordCount, es)
    decreases |es|
  {
    if es == [] then 0
    else
      var c' := Apply(c, recordCount, es[0]);
      (if c' == c then 0 else 1) + ChangingSteps(c', recordCount, es[1..])
  }

  function One(b: bool): int {
    if b then 1 else 0
  }

  /**
   The number of steps that have changed the chain, read off its state: starts requested and
   accepted, reports, counted completions, pages loaded and ended, and the return.
   */
  function Taken(c: Chain): int {
    var pc := c.window.pc;
    2 * |c.requested| - One(pc.Starting?) + |c.reported| + c.window.progress
    + (c.runs - One(pc.Loading?)) + (c.runs - 1 + One(pc.Draining? || pc.Returned?)) + One(pc.Returned?)
  }

  lemma StepIsCounted(c: Chain, input: Input, recordCount: int, e: Event)
    requires OnTrack(c, input) && Enabled(c, recordCount, e)
    ensures Taken(Apply(c, recordCount, e)) == Taken(c) + One(Apply(c, recordCount, e) != c)
  {
    match e
    case Requested => assert Apply(c, recordCount, e).window.pc != c.window.pc;
    case ChildReports(id) => assert id in c.reported ==> c.reported + {id} == c.reported;
    case Delivered(id) => assert id in c.window.current ==> id !in c.window.current - {id};
    case _ =>
  }

  lemma {:induction false} StepsCounted(c: Chain, input: Input, recordCount: int, es: seq<Event>)
    requires OnTrack(c, input) && Run(c, recordCount, es)
    ensures Taken(Exec(c, recordCount, es)) == Taken(c) + ChangingSteps(c, recordCount, es)
    decreases |es|
  {
    if es != [] {
      StepIsCounted(c, input, recordCount, es[0]);
      StepKeepsTrack(c, input, recordCount, es[0]);
      StepsCounted(Apply(c, recordCount, es[0]), input, recordCount, es[1..]);
    }
  }

  function Elements(xs: seq<int>): set<int> {
    set x | x in xs
  }

  lemma {:induction false} RangeElements(lo: int, hi: int)
    requires lo <= hi
    ensures |Elements(Range(lo, hi))| == hi - lo
    decreases hi - lo
  {
    if lo < hi {
      RangeElements(lo, hi - 1);
      forall x
        ensures x in Range(lo, hi) <==> x in Range(lo, hi - 1) || x == hi - 1
      {
        RangeContains(lo, hi, x);
        RangeContains(lo, hi - 1, x);
      }
      assert Elements(Range(lo, hi)) == Elements(Range(lo, hi - 1)) + {hi - 1};
      RangeContains(lo, hi - 1, hi - 1);
    }
  }

  lemma Subset(a: set<int>, b: set<int>)
    requires a <= b
    ensures |a| <= |b| && (|a| == |b| <==> a == b)
  {
    assert b == a + (b - a);
    assert |b| == |a| + |b - a|;
  }

  /** Children that have reported are among those requested; all have when the window is empty. */
  lemma ReportedOnTrack(c: Chain, input: Input)
    requires OnTrack(c, input)
    ensures |c.reported| <= |c.requested|
    ensures c.window.current == {} ==> |c.reported| == |c.requested|
  {
    var first, next := input.offset, Next(c.window);
    var ids := Elements(c.requested);
    RangeElements(first, next);
    assert c.requested == Range(first, next);
    assert c.reported <= ids by {
      assert forall id | id in c.reported :: id in c.requested;
    }
    Subset(c.reported, ids);
  }

  /** The number of changing steps of a whole chain. */
  function Steps(input: Input): int
    requires Sized(input)
  {
    4 * RecordsOf(input) + 2 * RunCount(input) + 1
  }

  lemma TakenBound(c: Chain, input: Input)
    requires OnTrack(c, input)
    ensures Taken(c) <= Steps(input)
    ensures Taken(c) == Steps(input) <==> c.window.pc.Returned?
  {
    RunsOnTrack(c, input);
    ReportedOnTrack(c, input);
  }

  /**
   With a positive page size, or without records, no run of a chain has more than Steps(input) steps
   that change it, and the chain has returned exactly when it has had that many.
   */
  lemma StepBound(input: Input, recordCount: int, es: seq<Event>)
    requires IsFresh(input) && Sized(input) && Run(NewChain(input), recordCount, es)
    ensures ChangingSteps(NewChain(input), recordCount, es) <= Steps(input)
    ensures Exec(NewChain(input), recordCount, es).window.pc.Returned?
            <==> ChangingSteps(NewChain(input), recordCount, es) == Steps(input)
  {
    RunKeepsTrack(NewChain(input), input, recordCount, es);
    StepsCounted(NewChain(input), input, recordCount, es);
    TakenBound(Exec(NewChain(input), recordCount, es), input);
  }

  // ---------- Exactly when a chain can return ----------

  /** It has no records; or a page size, room for a child and an upper bound the loader accepts. */
  predicate Returnable(input: Input, recordCount: int) {
    || input.offset >= input.maximum
    || (input.pageSize >= 1 && input.windowSize >= 1 && input.maximum <= recordCount)
  }

  /** The first page cannot be loaded, is empty, or has no room for its first child. */
  predicate Stuck(c: Chain, input: Input, recordCount: int) {
    && c.requested == [] && c.reported == {}
    && (c.window == NewRun(input) ||
        (input.maximum <= recordCount && c.window == LoadPage(NewRun(input), recordCount)))
  }

  lemma StuckStep(c: Chain, input: Input, recordCount: int, e: Event)
    requires IsFresh(input) && !Returnable(input, recordCount) && Stuck(c, input, recordCount)
    requires Enabled(c, recordCount, e)
    ensures Stuck(Apply(c, recordCount, e), input, recordCount)
  {
  }

  lemma {:induction false} StuckStays(c: Chain, input: Input, recordCount: int, es: seq<Event>)
    requires IsFresh(input) && !Returnable(input, recordCount) && Run(c, recordCount, es)
    requires Stuck(c, input, recordCount)
    ensures Stuck(Exec(c, recordCount, es), input, recordCount)
    decreases |es|
  {
    if es != [] {
      StuckStep(c, input, recordCount, es[0]);
      StuckStays(Apply(c, recordCount, es[0]), input, recordCount, es[1..]);
    }
  }

  /** Otherwise a chain that has records starts none of them and never returns. */
  lemma NeverReturns(input: Input, recordCount: int, es: seq<Event>)
    requires IsFresh(input) && !Returnable(input, recordCount) && Run(NewChain(input), recordCount, es)
    ensures var c := Exec(NewChain(input), recordCount, es);
            c.requested == [] && !c.window.pc.Returned? && !c.window.pc.Draining?
  {
    StuckStays(NewChain(input), input, recordCount, es);
  }

  /**
   A chain that can return and has not can always do something that changes it: a full window waits
   for a child, never for nothing.
   */
  lemma NeverDeadlocked(c: Chain, input: Input, recordCount: int) returns (e: Event)
    requires OnTrack(c, input) && Returnable(input, recordCount) && !c.window.pc.Returned?
    ensures Enabled(c, recordCount, e) && Apply(c, recordCount, e) != c
  {
    var w := c.window;
    match w.pc
    case Loading => e := PageLoaded;
    case Starting => e := Accepted;
    case Looping =>
      if w.records == [] {
        e := PageEnded;
      } else if HasCapacity(w) {
        e := Requested;
      } else {
        e := AwaitChild(c);
      }
    case Draining =>
      if w.current == {} {
        e := Drained;
      } else {
        e := AwaitChild(c);
      }
  }

  /** The steps of the window's own: those that do not wait for a child. */
  predicate OwnEvent(e: Event) {
    !e.ChildReports? && !e.Delivered?
  }

  /** The chain has to wait for children: its window is full, or all its records have been started. */
  predicate MustWait(c: Chain) {
    || (c.window.pc.Looping? && c.window.records != [] && |c.window.current| >= c.window.input.windowSize)
    || (c.window.pc.Draining? && c.window.current != {})
  }

  /** A returnable chain waits for its children exactly when it must: room in the window is never left unused. */
  lemma WaitsOnlyWhenFull(c: Chain, input: Input, recordCount: int)
    requires OnTrack(c, input) && Returnable(input, recordCount) && !c.window.pc.Returned?
    ensures (exists e | OwnEvent(e) :: Enabled(c, recordCount, e)) <==> !MustWait(c)
    ensures c.window.pc.Looping? && c.window.records != [] ==>
              (Enabled(c, recordCount, Requested) <==> |c.window.current| < input.windowSize)
  {
    match c.window.pc
    case Loading => assert Enabled(c, recordCount, PageLoaded);
    case Starting => assert Enabled(c, recordCount, Accepted);
    case Looping =>
      assert c.window.records == [] ==> Enabled(c, recordCount, PageEnded);
      assert c.window.records != [] && !MustWait(c) ==> Enabled(c, recordCount, Requested);
    case Draining => assert c.window.current == {} ==> Enabled(c, recordCount, Drained);
  }

  function Target(input: Input): int {
    Min(input.windowSize, RecordsOf(input))
  }

  predicate Unreported(c: Chain) {
    c.reported == {} && c.window.progress == 0
  }

  lemma NextFill(c: Chain, input: Input, recordCount: int) returns (e: Event)
    requires OnTrack(c, input) && Returnable(input, recordCount) && Unreported(c)
    requires input.windowSize >= 1 && |c.window.current| < Target(input)
    ensures OwnEvent(e) && Enabled(c, recordCount, e) && Apply(c, recordCount, e) != c
    ensures Unreported(Apply(c, recordCount, e)) && |Apply(c, recordCount, e).window.current| <= Target(input)
  {
    match c.window.pc
    case Loading => e := PageLoaded;
    case Starting => e := Accepted;
    case Looping => e := if c.window.records == [] then PageEnded else Requested;
  }

  lemma {:induction false} FillFrom(c: Chain, input: Input, recordCount: int) returns (es: seq<Event>)
    requires OnTrack(c, input) && Returnable(input, recordCount) && Unreported(c)
    requires input.windowSize >= 1 && |c.window.current| <= Target(input)
    ensures Run(c, recordCount, es) && (forall i | 0 <= i < |es| :: OwnEvent(es[i]))
    ensures |Exec(c, recordCount, es).window.current| == Target(input)
    decreases Steps(input) - Taken(c)
  {
    es := [];
    if |c.window.current| < Target(input) {
      var e := NextFill(c, input, recordCount);
      var c' := Apply(c, recordCount, e);
      StepKeepsTrack(c, input, recordCount, e);
      StepIsCounted(c, input, recordCount, e);
      TakenBound(c', input);
      es := FillFrom(c', input, recordCount);
      es := [e] + es;
    }
  }

  /**
   With no child reporting at all, a returnable chain fills its window: as many children as there is
   room for, or all of them, across as many runs as that takes.
   */
  lemma FillsWindow(input: Input, recordCount: int) returns (es: seq<Event>)
    requires IsFresh(input) && Returnable(input, recordCount) && input.windowSize >= 1
    ensures Run(NewChain(input), recordCount, es) && forall i | 0 <= i < |es| :: OwnEvent(es[i])
    ensures |Exec(NewChain(input), recordCount, es).window.current| == Min(input.windowSize, RecordsOf(input))
  {
    es := FillFrom(NewChain(input), input, recordCount);
  }

  lemma SomeRecord(ids: set<int>) returns (id: int)
    requires ids != {}
    ensures id in ids
  {
    assert (forall x :: x !in ids) ==> ids == {};
    id :| id in ids;
  }

  lemma AwaitChild(c: Chain) returns (e: Event)
    requires Counted(c) && !c.window.pc.Returned? && c.window.current != {}
    ensures forall recordCount :: Enabled(c, recordCount, e) && Apply(c, recordCount, e) != c
  {
    var id := SomeRecord(c.window.current);
    if id in c.reported {
      e := Delivered(id);
    } else {
      e := ChildReports(id);
      assert id in c.reported + {id};
    }
  }

  lemma {:induction false} CanFinish(c: Chain, input: Input, recordCount: int) returns (es: seq<Event>)
    requires OnTrack(c, input) && Returnable(input, recordCount)
    ensures Run(c, recordCount, es) && Exec(c, recordCount, es).window.pc.Returned?
    decreases Steps(input) - Taken(c)
  {
    es := [];
    if !c.window.pc.Returned? {
      var e := NeverDeadlocked(c, input, recordCount);
      var c' := Apply(c, recordCount, e);
      StepKeepsTrack(c, input, recordCount, e);
      StepIsCounted(c, input, recordCount, e);
      TakenBound(c', input);
      es := CanFinish(c', input, recordCount);
      es := [e] + es;
    }
  }

  /** From every reachable state a returnable chain can be run to its return. */
  lemma CanAlwaysReturn(input: Input, recordCount: int, es: seq<Event>) returns (more: seq<Event>)
    requires IsFresh(input) && Returnable(input, recordCount) && Run(NewChain(input), recordCount, es)
    ensures var c := Exec(NewChain(input), recordCount, es);
            Run(c, recordCount, more) && Exec(c, recordCount, more).window.pc.Returned?
  {
    RunKeepsTrack(NewChain(input), input, recordCount, es);
    more := CanFinish(Exec(NewChain(input), recordCount, es), input, recordCount);
  }

  predicate Returns(input: Input, recordCount: int, es: seq<Event>) {
    Run(NewChain(input), recordCount, es) && Exec(NewChain(input), recordCount, es).window.pc.Returned?
  }

  /** A chain has a returning run if and only if it is returnable. */
  lemma ReturnsIff(input: Input, recordCount: int)
    requires IsFresh(input)
    ensures (exists es :: Returns(input, recordCount, es)) <==> Returnable(input, recordCount)
  {
    if Returnable(input, recordCount) {
      var es := CanFinish(NewChain(input), input, recordCount);
      assert Returns(input, recordCount, es);
    } else {
      forall es
        ensures !Returns(input, recordCount, es)
      {
        if Returns(input, recordCount, es) {
          NeverReturns(input, recordCount, es);
        }
      }
    }
  }
}
