/**
 The order that the runtime fixes beyond readiness. Starting a parallel node makes all its branches
 run to their first activities before any result can come in, and one result or several may come in
 at a time. The runs that occur lie between two sets: in the ordered runs no activity below a
 parallel node completes before the first activities of its branches are scheduled; in the eager
 ones, where results come in one by one, nothing completes while a ready activity is unscheduled.
 */
module DslGather {
  import opened DslSemantics
  import opened DslRuns
  import opened DslLeaves

  /** The next step of the ready leaf at p is its completion, not its scheduling. */
  predicate Completes(t: Task, p: Path)
    requires Ready(t, p)
  {
    AdvanceLeaf(t, map[], p);
    Leaves(t)[LeafIndex(t, p)].phase.Scheduled?
  }

  /** All activities at the front of the task have been scheduled. */
  predicate FrontsStarted(t: Task) {
    match t
    case Leaf(_, phase) => !phase.Unscheduled?
    case Steps(ts) =>
      forall i | 0 <= i < |ts| && (forall j | 0 <= j < i :: Leaves(ts[j]) == []) :: FrontsStarted(ts[i])
    case Gather(ts) => forall i | 0 <= i < |ts| :: FrontsStarted(ts[i])
  }

  /** Around the leaf at p, every parallel node has started the fronts of its branches. */
  predicate GathersStarted(t: Task, p: Path)
    requires Ready(t, p)
  {
    match t
    case Leaf(_, _) => true
    case Steps(ts) => GathersStarted(ts[p[0]], p[1..])
    case Gather(ts) => (forall i | 0 <= i < |ts| :: FrontsStarted(ts[i])) && GathersStarted(ts[p[0]], p[1..])
  }

  predicate OrderedStep(t: Task, p: Path) {
    Ready(t, p) && (Completes(t, p) ==> GathersStarted(t, p))
  }

  ghost predicate EagerStep(t: Task, p: Path) {
    Ready(t, p) && (Completes(t, p) ==> forall q | Ready(t, q) :: Completes(t, q))
  }

  predicate Ordered(act: Activities, c: Config, ps: seq<Path>)
    decreases |ps|
  {
    ps == [] || (OrderedStep(c.root, ps[0]) && Ordered(act, Step(act, c, ps[0]), ps[1..]))
  }

  ghost predicate Eager(act: Activities, c: Config, ps: seq<Path>)
    decreases |ps|
  {
    ps == [] || (EagerStep(c.root, ps[0]) && Eager(act, Step(act, c, ps[0]), ps[1..]))
  }

  /** A run of the program to its end, in any order. */
  predicate CompleteRun(act: Activities, s: Statement, v: Vars, ps: seq<Path>) {
    Schedule(act, Start(s, v), ps) && Complete(Exec(act, Start(s, v), ps).root)
  }

  predicate OrderedRun(act: Activities, s: Statement, v: Vars, ps: seq<Path>) {
    CompleteRun(act, s, v, ps) && Ordered(act, Start(s, v), ps)
  }

  ghost predicate EagerRun(act: Activities, s: Statement, v: Vars, ps: seq<Path>) {
    CompleteRun(act, s, v, ps) && Eager(act, Start(s, v), ps)
  }

  // ---------- Eager runs are ordered ----------

  lemma CompletesPhase(t: Task, p: Path)
    requires Ready(t, p)
    ensures IsLeaf(Program(t), p) && !PhaseAt(t, p).Completed?
    ensures Completes(t, p) <==> PhaseAt(t, p).Scheduled?
  {
    ReadyPosition(t, p);
    AdvanceLeaf(t, map[], p);
  }

  lemma CompletesBelow(t: Task, p: Path)
    requires Ready(t, p) && !t.Leaf?
    ensures Completes(t, p) <==> Completes(t.tasks[p[0]], p[1..])
  {
    CompletesPhase(t, p);
    CompletesPhase(t.tasks[p[0]], p[1..]);
    PhaseBelow(t, p);
  }

  /** A front that has not started contains a ready leaf to schedule. */
  lemma {:induction false} UnstartedFront(t: Task) returns (q: Path)
    requires !FrontsStarted(t)
    ensures Ready(t, q) && !Completes(t, q)
    decreases t
  {
    if t.Leaf? {
      q := [];
      CompletesPhase(t, q);
    } else {
      var i :| 0 <= i < |t.tasks| && !FrontsStarted(t.tasks[i])
               && (t.Steps? ==> forall j | 0 <= j < i :: Leaves(t.tasks[j]) == []);
      var tail := UnstartedFront(t.tasks[i]);
      q := [i] + tail;
      assert q[0] == i && q[1..] == tail;
      forall j | t.Steps? && 0 <= j < i
        ensures Complete(t.tasks[j])
      {
        CompleteLeaves(t.tasks[j]);
      }
      CompletesBelow(t, q);
    }
  }

  lemma {:induction false} EagerIsOrdered(t: Task, p: Path)
    requires Ready(t, p) && forall q | Ready(t, q) :: Completes(t, q)
    ensures GathersStarted(t, p)
    decreases t
  {
    if !t.Leaf? {
      var k := p[0];
      forall q | Ready(t.tasks[k], q)
        ensures Completes(t.tasks[k], q)
      {
        assert ([k] + q)[0] == k && ([k] + q)[1..] == q;
        CompletesBelow(t, [k] + q);
      }
      EagerIsOrdered(t.tasks[k], p[1..]);
      if t.Gather? {
        forall i | 0 <= i < |t.tasks|
          ensures FrontsStarted(t.tasks[i])
        {
          if !FrontsStarted(t.tasks[i]) {
            var q := UnstartedFront(t.tasks[i]);
            assert ([i] + q)[0] == i && ([i] + q)[1..] == q;
            CompletesBelow(t, [i] + q);
          }
        }
      }
    }
  }

  lemma {:induction false} EagerRunsAreOrdered(act: Activities, c: Config, ps: seq<Path>)
    requires Eager(act, c, ps)
    ensures Ordered(act, c, ps)
    decreases |ps|
  {
    if ps != [] {
      if Completes(c.root, ps[0]) {
        EagerIsOrdered(c.root, ps[0]);
      }
      EagerRunsAreOrdered(act, Step(act, c, ps[0]), ps[1..]);
    }
  }

  lemma {:induction false} OrderedSchedule(act: Activities, c: Config, ps: seq<Path>)
    requires Ordered(act, c, ps)
    ensures Schedule(act, c, ps)
    decreases |ps|
  {
    if ps != [] {
      OrderedSchedule(act, Step(act, c, ps[0]), ps[1..]);
    }
  }

  // ---------- What the order implies ----------

  lemma {:induction false} FrontPhase(t: Task, q: Path)
    requires FrontsStarted(t) && IsLeaf(Program(t), q) && AtFront(Program(t), q)
    ensures !PhaseAt(t, q).Unscheduled?
    decreases t
  {
    if !t.Leaf? {
      PhaseBelow(t, q);
      forall j | t.Steps? && 0 <= j < q[0]
        ensures Leaves(t.tasks[j]) == []
      {
        LeavesOfProgram(t.tasks[j]);
        assert Program(t).elements[j] == Program(t.tasks[j]);
      }
      FrontPhase(t.tasks[q[0]], q[1..]);
    }
  }

  /** A leaf completes only when the concurrent leaves at the front of their branches have been scheduled. */
  lemma {:induction false} FrontsFirst(t: Task, p: Path, q: Path)
    requires Ready(t, p) && GathersStarted(t, p)
    requires IsLeaf(Program(t), p) && IsLeaf(Program(t), q) && Concurrent(Program(t), p, q)
    requires FrontWhereParting(Program(t), p, q)
    ensures !PhaseAt(t, q).Unscheduled?
    decreases t
  {
    PhaseBelow(t, q);
    if p[0] == q[0] {
      FrontsFirst(t.tasks[p[0]], p[1..], q[1..]);
    } else {
      FrontPhase(t.tasks[q[0]], q[1..]);
    }
  }

  // ---------- Choosing eager steps ----------

  /** The next eager step: schedule something if possible, and else complete something. */
  lemma NextEager(t: Task) returns (r: Path)
    requires !Complete(t)
    ensures EagerStep(t, r)
  {
    if q :| Ready(t, q) && !Completes(t, q) {
      r := q;
    } else {
      r := NeverBlocked(t);
    }
  }

  /** The next eager step on the way to q: what it completes is not concurrent to q. */
  lemma NextEagerToward(t: Task, q: Path) returns (r: Path)
    requires IsLeaf(Program(t), q) && !PhaseAt(t, q).Completed?
    ensures EagerStep(t, r) && (Completes(t, r) ==> !Concurrent(Program(t), r, q))
    ensures Ready(t, q) && Completes(t, r) ==> Completes(t, q)
  {
    if p :| Ready(t, p) && !Completes(t, p) {
      r := p;
    } else {
      r := Toward(t, q);
    }
  }
}
