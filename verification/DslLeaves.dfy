/**
 The activities of a program by their paths: where they stand in its text, in which phase they are
 in a running task, and how two of them are related by the nodes where their paths part.
 */
module DslLeaves {
  import opened DslSemantics
  import opened DslConfluence
  import opened DslRuns

  // ---------- Leaves of a program, by path and by position ----------

  predicate IsLeaf(s: Statement, p: Path) {
    match s
    case Activity(_) => p == []
    case Sequence(es) => p != [] && p[0] < |es| && IsLeaf(es[p[0]], p[1..])
    case Parallel(bs) => p != [] && p[0] < |bs| && IsLeaf(bs[p[0]], p[1..])
  }

  function LeafAt(s: Statement, p: Path): Invocation
    requires IsLeaf(s, p)
  {
    match s
    case Activity(a) => a
    case Sequence(es) => LeafAt(es[p[0]], p[1..])
    case Parallel(bs) => LeafAt(bs[p[0]], p[1..])
  }

  /** The place of a leaf in the textual order of the activities. */
  function Position(s: Statement, p: Path): nat
    requires IsLeaf(s, p)
    decreases s, 1
  {
    match s
    case Activity(_) => 0
    case Sequence(es) => PositionAll(es, p[0], p[1..])
    case Parallel(bs) => PositionAll(bs, p[0], p[1..])
  }

  function PositionAll(ss: seq<Statement>, i: nat, p: Path): nat
    requires i < |ss| && IsLeaf(ss[i], p)
    decreases ss, 0
  {
    if i == 0 then Position(ss[0], p) else |ActivitiesOf(ss[0])| + PositionAll(ss[1..], i - 1, p)
  }

  lemma {:induction false} LeafAtPosition(s: Statement, p: Path)
    requires IsLeaf(s, p)
    ensures Position(s, p) < |ActivitiesOf(s)| && ActivitiesOf(s)[Position(s, p)] == LeafAt(s, p)
    decreases s, 1
  {
    match s
    case Activity(_) =>
    case Sequence(es) => LeafAtPositionAll(es, p[0], p[1..]);
    case Parallel(bs) => LeafAtPositionAll(bs, p[0], p[1..]);
  }

  lemma {:induction false} LeafAtPositionAll(ss: seq<Statement>, i: nat, p: Path)
    requires i < |ss| && IsLeaf(ss[i], p)
    ensures PositionAll(ss, i, p) < |ActivitiesOfAll(ss)|
    ensures ActivitiesOfAll(ss)[PositionAll(ss, i, p)] == LeafAt(ss[i], p)
    decreases ss, 0
  {
    if i == 0 {
      LeafAtPosition(ss[0], p);
    } else {
      LeafAtPositionAll(ss[1..], i - 1, p);
    }
  }

  /** Two paths to one position are equal. */
  lemma {:induction false} PositionInjective(s: Statement, p: Path, q: Path)
    requires IsLeaf(s, p) && IsLeaf(s, q) && Position(s, p) == Position(s, q)
    ensures p == q
    decreases s, 1
  {
    if !s.Activity? {
      PositionAllInjective(if s.Sequence? then s.elements else s.branches, p[0], p[1..], q[0], q[1..]);
      assert p == [p[0]] + p[1..] && q == [q[0]] + q[1..];
    }
  }

  lemma {:induction false} PositionAllInjective(ss: seq<Statement>, i: nat, p: Path, j: nat, q: Path)
    requires i < |ss| && IsLeaf(ss[i], p) && j < |ss| && IsLeaf(ss[j], q)
    requires PositionAll(ss, i, p) == PositionAll(ss, j, q)
    ensures i == j && p == q
    decreases ss, 0
  {
    if i == 0 {
      LeafAtPosition(ss[0], p);
    }
    if j == 0 {
      LeafAtPosition(ss[0], q);
    }
    if i == 0 && j == 0 {
      PositionInjective(ss[0], p, q);
    } else if i > 0 && j > 0 {
      PositionAllInjective(ss[1..], i - 1, p, j - 1, q);
    }
  }

  // ---------- Leaves of a task are the leaves of its program ----------

  lemma {:induction false} LeavesOfProgram(t: Task)
    ensures |Leaves(t)| == |ActivitiesOf(Program(t))|
    ensures forall k | 0 <= k < |Leaves(t)| :: Leaves(t)[k].activity == ActivitiesOf(Program(t))[k]
    decreases t, 1
  {
    match t
    case Leaf(_, _) =>
    case Steps(ts) => LeavesOfProgramAll(ts);
    case Gather(ts) => LeavesOfProgramAll(ts);
  }

  lemma {:induction false} LeavesOfProgramAll(ts: seq<Task>)
    ensures |LeavesAll(ts)| == |ActivitiesOfAll(ProgramAll(ts))|
    ensures forall k | 0 <= k < |LeavesAll(ts)| :: LeavesAll(ts)[k].activity == ActivitiesOfAll(ProgramAll(ts))[k]
    decreases ts, 0
  {
    if ts != [] {
      LeavesOfProgram(ts[0]);
      LeavesOfProgramAll(ts[1..]);
      assert ProgramAll(ts)[1..] == ProgramAll(ts[1..]);
    }
  }

  lemma {:induction false} ReadyPosition(t: Task, p: Path)
    requires Ready(t, p)
    ensures IsLeaf(Program(t), p) && LeafIndex(t, p) == Position(Program(t), p)
    decreases t, 1
  {
    if !t.Leaf? {
      ReadyPositionAll(t.tasks, p[0], p[1..]);
    }
  }

  lemma {:induction false} ReadyPositionAll(ts: seq<Task>, i: nat, p: Path)
    requires i < |ts| && Ready(ts[i], p)
    ensures IsLeaf(ProgramAll(ts)[i], p) && LeafIndexAll(ts, i, p) == PositionAll(ProgramAll(ts), i, p)
    decreases ts, 0
  {
    if i == 0 {
      ReadyPosition(ts[0], p);
    } else {
      LeavesOfProgram(ts[0]);
      ReadyPositionAll(ts[1..], i - 1, p);
      assert ProgramAll(ts)[1..] == ProgramAll(ts[1..]);
    }
  }

  function PhaseAt(t: Task, p: Path): Phase
    requires IsLeaf(Program(t), p)
  {
    LeavesOfProgram(t);
    LeafAtPosition(Program(t), p);
    Leaves(t)[Position(Program(t), p)].phase
  }

  /** A step at r moves the leaf at r to its next phase and no other leaf. */
  lemma StepPhases(act: Activities, c: Config, r: Path)
    requires Ready(c.root, r)
    ensures Program(Step(act, c, r).root) == Program(c.root) && IsLeaf(Program(c.root), r)
    ensures !PhaseAt(c.root, r).Completed?
    ensures forall p | IsLeaf(Program(c.root), p) ::
              PhaseAt(Step(act, c, r).root, p)
              == if p == r then NextPhase(LeafAt(Program(c.root), r), PhaseAt(c.root, r), c.vars)
                 else PhaseAt(c.root, p)
    ensures Effect(act, c.root, r) == LeafEffect(act, LeafAt(Program(c.root), r), PhaseAt(c.root, r))
    ensures Remaining(Leaves(Step(act, c, r).root)) < Remaining(Leaves(c.root))
  {
    AdvanceProgram(c.root, c.vars, r);
    ReadyPosition(c.root, r);
    AdvanceLeaf(c.root, c.vars, r);
    LeavesOfProgram(c.root);
    LeafAtPosition(Program(c.root), r);
    var k, ls := LeafIndex(c.root, r), Leaves(c.root);
    RemainingUpdate(ls, k, LeafState(ls[k].activity, NextPhase(ls[k].activity, ls[k].phase, c.vars)));
    forall p | IsLeaf(Program(c.root), p)
      ensures PhaseAt(Step(act, c, r).root, p)
              == if p == r then NextPhase(LeafAt(Program(c.root), r), PhaseAt(c.root, r), c.vars)
                 else PhaseAt(c.root, p)
    {
      LeafAtPosition(Program(c.root), p);
      if p != r && Position(Program(c.root), p) == Position(Program(c.root), r) {
        PositionInjective(Program(c.root), p, r);
      }
    }
  }

  lemma PhaseBelow(t: Task, p: Path)
    requires !t.Leaf? && IsLeaf(Program(t), p)
    ensures p != [] && p[0] < |t.tasks| && IsLeaf(Program(t.tasks[p[0]]), p[1..])
    ensures PhaseAt(t, p) == PhaseAt(t.tasks[p[0]], p[1..])
  {
    PhaseOfChild(t.tasks, p[0], p[1..]);
  }

  lemma {:induction false} PhaseOfChild(ts: seq<Task>, i: nat, p: Path)
    requires i < |ts| && IsLeaf(Program(ts[i]), p)
    ensures PositionAll(ProgramAll(ts), i, p) < |LeavesAll(ts)|
    ensures LeavesAll(ts)[PositionAll(ProgramAll(ts), i, p)].phase == PhaseAt(ts[i], p)
    decreases i
  {
    LeavesOfProgram(ts[0]);
    assert ProgramAll(ts)[1..] == ProgramAll(ts[1..]);
    if i == 0 {
      LeafAtPosition(Program(ts[0]), p);
    } else {
      PhaseOfChild(ts[1..], i - 1, p);
    }
  }

  lemma {:induction false} CompletePhase(t: Task, p: Path)
    requires IsLeaf(Program(t), p) && Complete(t)
    ensures PhaseAt(t, p).Completed?
  {
    CompleteLeaves(t);
    LeavesOfProgram(t);
    LeafAtPosition(Program(t), p);
  }

  lemma SpawnPhase(s: Statement, p: Path)
    requires IsLeaf(s, p)
    ensures Program(Spawn(s)) == s && PhaseAt(Spawn(s), p) == Unscheduled
  {
    ProgramSpawn(s);
    SpawnLeaves(s);
    LeafAtPosition(s, p);
  }

  // ---------- How two leaves are related ----------

  /** The paths part at a parallel node. */
  predicate Concurrent(s: Statement, p: Path, q: Path) {
    match s
    case Activity(_) => false
    case Sequence(es) =>
      p != [] && q != [] && p[0] == q[0] < |es| && Concurrent(es[p[0]], p[1..], q[1..])
    case Parallel(bs) =>
      && p != [] && q != [] && p[0] < |bs| && q[0] < |bs|
      && (p[0] != q[0] || Concurrent(bs[p[0]], p[1..], q[1..]))
  }

  lemma {:induction false} ConcurrentSymmetric(s: Statement, p: Path, q: Path)
    requires Concurrent(s, p, q)
    ensures Concurrent(s, q, p) && p != q
    decreases s
  {
    if p[0] == q[0] {
      ConcurrentSymmetric((if s.Sequence? then s.elements else s.branches)[p[0]], p[1..], q[1..]);
    }
  }

  /** The paths part at a sequence, and p takes the earlier element. */
  predicate Ahead(s: Statement, p: Path, q: Path) {
    match s
    case Activity(_) => false
    case Sequence(es) =>
      && p != [] && q != [] && p[0] < |es| && q[0] < |es|
      && (p[0] < q[0] || (p[0] == q[0] && Ahead(es[p[0]], p[1..], q[1..])))
    case Parallel(bs) =>
      p != [] && q != [] && p[0] == q[0] < |bs| && Ahead(bs[p[0]], p[1..], q[1..])
  }

  /** Any two leaves are related in exactly one way. */
  lemma {:induction false} Related(s: Statement, p: Path, q: Path)
    requires IsLeaf(s, p) && IsLeaf(s, q)
    ensures p != q ==> Ahead(s, p, q) || Ahead(s, q, p) || Concurrent(s, p, q)
    ensures Ahead(s, p, q) ==> !Ahead(s, q, p) && !Concurrent(s, p, q)
    decreases s
  {
    if !s.Activity? && p[0] == q[0] {
      Related((if s.Sequence? then s.elements else s.branches)[p[0]], p[1..], q[1..]);
      assert p == [p[0]] + p[1..] && q == [q[0]] + q[1..];
    }
  }

  /** What is ahead stands earlier in the text. */
  lemma {:induction false} AheadEarlier(s: Statement, p: Path, q: Path)
    requires IsLeaf(s, p) && IsLeaf(s, q) && Ahead(s, p, q)
    ensures Position(s, p) < Position(s, q)
    decreases s
  {
    var ss := if s.Sequence? then s.elements else s.branches;
    if p[0] == q[0] {
      AheadEarlier(ss[p[0]], p[1..], q[1..]);
    }
    EarlierAll(ss, p[0], p[1..], q[0], q[1..]);
  }

  lemma {:induction false} EarlierAll(ss: seq<Statement>, i: nat, p: Path, j: nat, q: Path)
    requires i < |ss| && IsLeaf(ss[i], p) && j < |ss| && IsLeaf(ss[j], q)
    requires i < j || (i == j && Position(ss[i], p) < Position(ss[j], q))
    ensures PositionAll(ss, i, p) < PositionAll(ss, j, q)
    decreases i
  {
    if i == 0 {
      LeafAtPosition(ss[0], p);
    } else {
      EarlierAll(ss[1..], i - 1, p, j - 1, q);
    }
  }

  /** What is ahead of a ready leaf is completed. */
  lemma {:induction false} ReadyAhead(t: Task, p: Path, q: Path)
    requires Ready(t, q) && IsLeaf(Program(t), p) && Ahead(Program(t), p, q)
    ensures PhaseAt(t, p).Completed?
    decreases t
  {
    PhaseBelow(t, p);
    if p[0] == q[0] {
      ReadyAhead(t.tasks[p[0]], p[1..], q[1..]);
    } else {
      CompletePhase(t.tasks[p[0]], p[1..]);
    }
  }

  lemma {:induction false} StartedPhase(t: Task, p: Path)
    requires IsLeaf(Program(t), p) && !PhaseAt(t, p).Unscheduled?
    ensures Started(t)
    decreases t
  {
    if !t.Leaf? {
      PhaseBelow(t, p);
      StartedPhase(t.tasks[p[0]], p[1..]);
    }
  }

  /** What is behind a leaf that is not completed has not started. */
  lemma {:induction false} NotStartedBehind(t: Task, p: Path, q: Path)
    requires Sequenced(t) && IsLeaf(Program(t), p) && IsLeaf(Program(t), q) && Ahead(Program(t), p, q)
    requires !PhaseAt(t, p).Completed?
    ensures PhaseAt(t, q).Unscheduled?
    decreases t
  {
    PhaseBelow(t, p);
    PhaseBelow(t, q);
    if p[0] == q[0] {
      NotStartedBehind(t.tasks[p[0]], p[1..], q[1..]);
    } else {
      if Complete(t.tasks[p[0]]) {
        CompletePhase(t.tasks[p[0]], p[1..]);
      }
      if !PhaseAt(t, q).Unscheduled? {
        StartedPhase(t.tasks[q[0]], q[1..]);
      }
    }
  }

  // ---------- The front of a statement ----------

  /** No activity is ahead of the leaf within the statement. */
  predicate AtFront(s: Statement, q: Path)
    requires IsLeaf(s, q)
  {
    match s
    case Activity(_) => true
    case Sequence(es) => (forall j | 0 <= j < q[0] :: ActivitiesOf(es[j]) == []) && AtFront(es[q[0]], q[1..])
    case Parallel(bs) => AtFront(bs[q[0]], q[1..])
  }

  /** q is at the front of its branch at the node where the paths of p and q part. */
  predicate FrontWhereParting(s: Statement, p: Path, q: Path)
    requires IsLeaf(s, p) && IsLeaf(s, q) && Concurrent(s, p, q)
  {
    match s
    case Sequence(es) => FrontWhereParting(es[q[0]], p[1..], q[1..])
    case Parallel(bs) =>
      if p[0] == q[0] then FrontWhereParting(bs[q[0]], p[1..], q[1..]) else AtFront(bs[q[0]], q[1..])
  }

  lemma {:induction false} AnyLeaf(s: Statement) returns (p: Path)
    requires ActivitiesOf(s) != []
    ensures IsLeaf(s, p)
    decreases s, 1
  {
    if s.Activity? {
      p := [];
    } else {
      var i, tail := AnyLeafAll(if s.Sequence? then s.elements else s.branches);
      p := [i] + tail;
    }
  }

  lemma {:induction false} AnyLeafAll(ss: seq<Statement>) returns (i: nat, p: Path)
    requires ActivitiesOfAll(ss) != []
    ensures i < |ss| && IsLeaf(ss[i], p)
    decreases ss, 0
  {
    if ActivitiesOf(ss[0]) != [] {
      i := 0;
      p := AnyLeaf(ss[0]);
    } else {
      i, p := AnyLeafAll(ss[1..]);
      i := i + 1;
    }
  }

  lemma {:induction false} LeafAhead(s: Statement, q: Path) returns (r: Path)
    requires IsLeaf(s, q) && !AtFront(s, q)
    ensures IsLeaf(s, r) && Ahead(s, r, q)
    decreases s
  {
    var ss := if s.Sequence? then s.elements else s.branches;
    if !AtFront(ss[q[0]], q[1..]) {
      var tail := LeafAhead(ss[q[0]], q[1..]);
      r := [q[0]] + tail;
    } else {
      var j :| 0 <= j < q[0] && ActivitiesOf(ss[j]) != [];
      var tail := AnyLeaf(ss[j]);
      r := [j] + tail;
    }
  }

  /** Where q is not at the front, some leaf of its branch is ahead of it. */
  lemma {:induction false} GuardOf(s: Statement, p: Path, q: Path) returns (r: Path)
    requires IsLeaf(s, p) && IsLeaf(s, q) && Concurrent(s, p, q) && !FrontWhereParting(s, p, q)
    ensures IsLeaf(s, r) && Ahead(s, r, q) && Concurrent(s, p, r)
    decreases s
  {
    var ss := if s.Sequence? then s.elements else s.branches;
    var tail;
    if p[0] == q[0] {
      tail := GuardOf(ss[q[0]], p[1..], q[1..]);
    } else {
      tail := LeafAhead(ss[q[0]], q[1..]);
    }
    r := [q[0]] + tail;
  }

  /** A leaf that is not completed is ready, or another one that is not concurrent to it is. */
  lemma {:induction false} Toward(t: Task, q: Path) returns (r: Path)
    requires IsLeaf(Program(t), q) && !PhaseAt(t, q).Completed?
    ensures Ready(t, r) && !Concurrent(Program(t), r, q)
    decreases t
  {
    match t
    case Leaf(_, _) => r := [];
    case Steps(ts) =>
      PhaseOfChild(ts, q[0], q[1..]);
      if i :| 0 <= i < q[0] && !Complete(ts[i]) {
        var first := FirstIncomplete(ts);
        var tail := NeverBlocked(ts[first]);
        r := [first] + tail;
      } else {
        var tail := Toward(ts[q[0]], q[1..]);
        r := [q[0]] + tail;
      }
    case Gather(ts) =>
      PhaseOfChild(ts, q[0], q[1..]);
      var tail := Toward(ts[q[0]], q[1..]);
      r := [q[0]] + tail;
  }
}
