/**
 What every run of a DSL program does, races or not: it calls each activity of the program
 exactly once, respects sequences, takes exactly two steps per activity, never blocks, and
 leaves in each variable either its initial value or the result of a call that names it.
 */
module DslRuns {
  import opened DslSemantics
  import opened DslConfluence

  // ---------- The leaves of a task, in textual order ----------

  datatype LeafState = LeafState(activity: Invocation, phase: Phase)

  function Leaves(t: Task): seq<LeafState>
    decreases t, 1
  {
    match t
    case Leaf(a, phase) => [LeafState(a, phase)]
    case Steps(ts) => LeavesAll(ts)
    case Gather(ts) => LeavesAll(ts)
  }

  function LeavesAll(ts: seq<Task>): seq<LeafState>
    decreases ts, 0
  {
    if ts == [] then [] else Leaves(ts[0]) + LeavesAll(ts[1..])
  }

  /** The activities of a program, in textual order. */
  function ActivitiesOf(s: Statement): seq<Invocation>
    decreases s, 1
  {
    match s
    case Activity(a) => [a]
    case Sequence(es) => ActivitiesOfAll(es)
    case Parallel(bs) => ActivitiesOfAll(bs)
  }

  function ActivitiesOfAll(ss: seq<Statement>): seq<Invocation>
    decreases ss, 0
  {
    if ss == [] then [] else ActivitiesOf(ss[0]) + ActivitiesOfAll(ss[1..])
  }

  function LeafIndex(t: Task, p: Path): nat
    requires Ready(t, p)
    decreases t, 1
  {
    if t.Leaf? then 0 else LeafIndexAll(t.tasks, p[0], p[1..])
  }

  function LeafIndexAll(ts: seq<Task>, i: nat, p: Path): nat
    requires i < |ts| && Ready(ts[i], p)
    decreases ts, 0
  {
    if i == 0 then LeafIndex(ts[0], p) else |Leaves(ts[0])| + LeafIndexAll(ts[1..], i - 1, p)
  }

  lemma {:induction false} SpawnLeaves(s: Statement)
    ensures |Leaves(Spawn(s))| == |ActivitiesOf(s)|
    ensures forall k | 0 <= k < |ActivitiesOf(s)| :: Leaves(Spawn(s))[k] == LeafState(ActivitiesOf(s)[k], Unscheduled)
    decreases s, 1
  {
    match s
    case Activity(a) =>
    case Sequence(es) => SpawnLeavesAll(es);
    case Parallel(bs) => SpawnLeavesAll(bs);
  }

  lemma {:induction false} SpawnLeavesAll(ss: seq<Statement>)
    ensures |LeavesAll(SpawnAll(ss))| == |ActivitiesOfAll(ss)|
    ensures forall k | 0 <= k < |ActivitiesOfAll(ss)| ::
              LeavesAll(SpawnAll(ss))[k] == LeafState(ActivitiesOfAll(ss)[k], Unscheduled)
    decreases ss, 0
  {
    if ss != [] {
      SpawnLeaves(ss[0]);
      SpawnLeavesAll(ss[1..]);
      assert SpawnAll(ss)[1..] == SpawnAll(ss[1..]);
    }
  }

  predicate AllCompleted(ls: seq<LeafState>) {
    forall k | 0 <= k < |ls| :: ls[k].phase.Completed?
  }

  lemma {:induction false} CompleteLeaves(t: Task)
    ensures Complete(t) <==> AllCompleted(Leaves(t))
    decreases t, 1
  {
    if t.Leaf? {
      assert Leaves(t)[0].phase == t.phase;
    } else {
      CompleteLeavesAll(t.tasks);
    }
  }

  lemma {:induction false} CompleteLeavesAll(ts: seq<Task>)
    ensures (forall i | 0 <= i < |ts| :: Complete(ts[i])) <==> AllCompleted(LeavesAll(ts))
    decreases ts, 0
  {
    if ts != [] {
      CompleteLeaves(ts[0]);
      CompleteLeavesAll(ts[1..]);
      var h, r := Leaves(ts[0]), LeavesAll(ts[1..]);
      assert AllCompleted(h + r) ==> AllCompleted(h) by {
        assert forall k | 0 <= k < |h| :: (h + r)[k] == h[k];
      }
      assert AllCompleted(h + r) ==> AllCompleted(r) by {
        assert forall k | 0 <= k < |r| :: (h + r)[|h| + k] == r[k];
      }
      assert forall i | 0 < i < |ts| :: ts[i] == ts[1..][i - 1];
    }
  }

  // ---------- A step moves exactly one leaf to its next phase ----------

  lemma {:induction false} AdvanceLeaf(t: Task, v: Vars, p: Path)
    requires Ready(t, p)
    ensures var k := LeafIndex(t, p); var ls := Leaves(t);
            && k < |ls| && !ls[k].phase.Completed?
            && Leaves(Advance(t, v, p)) == ls[k := LeafState(ls[k].activity, NextPhase(ls[k].activity, ls[k].phase, v))]
            && (forall act :: Effect(act, t, p) == LeafEffect(act, ls[k].activity, ls[k].phase))
    decreases t, 1
  {
    if !t.Leaf? {
      AdvanceLeafAll(t.tasks, v, p[0], p[1..]);
    }
  }

  lemma {:induction false} AdvanceLeafAll(ts: seq<Task>, v: Vars, i: nat, p: Path)
    requires i < |ts| && Ready(ts[i], p)
    ensures var k := LeafIndexAll(ts, i, p); var ls := LeavesAll(ts);
            && k < |ls| && !ls[k].phase.Completed?
            && LeavesAll(ts[i := Advance(ts[i], v, p)])
               == ls[k := LeafState(ls[k].activity, NextPhase(ls[k].activity, ls[k].phase, v))]
            && (forall act :: Effect(act, ts[i], p) == LeafEffect(act, ls[k].activity, ls[k].phase))
    decreases ts, 0
  {
    var ts' := ts[i := Advance(ts[i], v, p)];
    if i == 0 {
      AdvanceLeaf(ts[0], v, p);
      assert ts'[1..] == ts[1..];
    } else {
      AdvanceLeafAll(ts[1..], v, i - 1, p);
      assert ts'[1..] == ts[1..][i - 1 := Advance(ts[i], v, p)];
    }
  }

  // ---------- The calls of a run ----------

  /** One execution of an activity: the leaf it belongs to and the arguments it was given. */
  datatype Call = Call(leaf: nat, activity: Invocation, args: seq<Value>)

  function Issued(t: Task, v: Vars, p: Path): seq<Call>
    requires Ready(t, p)
  {
    AdvanceLeaf(t, v, p);
    var k := LeafIndex(t, p);
    var l := Leaves(t)[k];
    if l.phase.Unscheduled? then [Call(k, l.activity, Arguments(l.activity, v))] else []
  }

  /** The calls of a run, appended to those made before it. */
  function CallsAfter(act: Activities, c: Config, ps: seq<Path>, log: seq<Call>): seq<Call>
    requires Schedule(act, c, ps)
    decreases |ps|
  {
    if ps == [] then log else CallsAfter(act, Step(act, c, ps[0]), ps[1..], log + Issued(c.root, c.vars, ps[0]))
  }

  function Calls(act: Activities, c: Config, ps: seq<Path>): seq<Call>
    requires Schedule(act, c, ps)
  {
    CallsAfter(act, c, ps, [])
  }

  // ---------- The invariant of a run ----------

  predicate CallsMatchLeaves(ls: seq<LeafState>, log: seq<Call>) {
    && (forall i | 0 <= i < |log| ::
          && log[i].leaf < |ls| && !ls[log[i].leaf].phase.Unscheduled?
          && log[i].activity == ls[log[i].leaf].activity && |log[i].args| == |log[i].activity.arguments|
          && (ls[log[i].leaf].phase.Scheduled? ==> ls[log[i].leaf].phase.args == log[i].args))
    && (forall i, j | 0 <= i < j < |log| :: log[i].leaf != log[j].leaf)
    && (forall k | 0 <= k < |ls| && !ls[k].phase.Unscheduled? :: Called(log, k))
  }

  predicate Called(log: seq<Call>, k: nat) {
    exists i | 0 <= i < |log| :: log[i].leaf == k
  }

  predicate StoredBy(ls: seq<LeafState>, x: string) {
    exists k | 0 <= k < |ls| :: ls[k].phase.Completed? && x in Targets(ls[k].activity)
  }

  predicate ResultOfCall(act: Activities, log: seq<Call>, x: string, r: Value) {
    exists i | 0 <= i < |log| :: x in Targets(log[i].activity) && r == act(log[i].activity.name, log[i].args)
  }

  ghost predicate Justified(act: Activities, ls: seq<LeafState>, log: seq<Call>, v0: Vars, v: Vars) {
    && (forall x :: !StoredBy(ls, x) ==> AgreeOn(v0, v, {x}))
    && (forall x :: StoredBy(ls, x) ==> x in v && ResultOfCall(act, log, x, v[x]))
  }

  ghost predicate RunInvariant(act: Activities, s: Statement, v0: Vars, c: Config, log: seq<Call>) {
    var ls := Leaves(c.root);
    && |ls| == |ActivitiesOf(s)|
    && (forall k | 0 <= k < |ls| :: ls[k].activity == ActivitiesOf(s)[k])
    && CallsMatchLeaves(ls, log)
    && Justified(act, ls, log, v0, c.vars)
  }

  lemma StepKeepsCalls(c: Config, p: Path, log: seq<Call>)
    requires Ready(c.root, p) && CallsMatchLeaves(Leaves(c.root), log)
    ensures CallsMatchLeaves(Leaves(Advance(c.root, c.vars, p)), log + Issued(c.root, c.vars, p))
  {
    AdvanceLeaf(c.root, c.vars, p);
    var k, ls := LeafIndex(c.root, p), Leaves(c.root);
    var ls' := Leaves(Advance(c.root, c.vars, p));
    var log' := log + Issued(c.root, c.vars, p);
    forall m | 0 <= m < |ls'| && !ls'[m].phase.Unscheduled?
      ensures Called(log', m)
    {
      if m == k && ls[k].phase.Unscheduled? {
        assert log'[|log|].leaf == m;
      } else {
        assert Called(log, m);
        var i :| 0 <= i < |log| && log[i].leaf == m;
        assert log'[i].leaf == m;
      }
    }
  }

  /** The step completes the leaf k: the variable it names now holds the result of its call. */
  lemma StoredIsJustified(act: Activities, c: Config, p: Path, log: seq<Call>, x: string)
    requires Ready(c.root, p) && CallsMatchLeaves(Leaves(c.root), log)
    requires x in Effect(act, c.root, p)
    ensures var c' := Step(act, c, p);
            StoredBy(Leaves(c'.root), x) && x in c'.vars
            && ResultOfCall(act, log + Issued(c.root, c.vars, p), x, c'.vars[x])
  {
    AdvanceLeaf(c.root, c.vars, p);
    var k, ls := LeafIndex(c.root, p), Leaves(c.root);
    assert Leaves(Step(act, c, p).root)[k].phase.Completed?;
    assert Called(log, k);
    var i :| 0 <= i < |log| && log[i].leaf == k;
    assert (log + Issued(c.root, c.vars, p))[i] == log[i];
  }

  /** The step stores nothing in x: what was known about x stays known. */
  lemma OthersStayJustified(act: Activities, c: Config, p: Path, log: seq<Call>, x: string)
    requires Ready(c.root, p) && x !in Effect(act, c.root, p)
    ensures var c' := Step(act, c, p);
            && (StoredBy(Leaves(c'.root), x) <==> StoredBy(Leaves(c.root), x))
            && (x in c'.vars <==> x in c.vars) && (x in c.vars ==> c'.vars[x] == c.vars[x])
    ensures forall r :: ResultOfCall(act, log, x, r) ==> ResultOfCall(act, log + Issued(c.root, c.vars, p), x, r)
  {
    AdvanceLeaf(c.root, c.vars, p);
    var k, ls := LeafIndex(c.root, p), Leaves(c.root);
    var ls' := Leaves(Step(act, c, p).root);
    var log' := log + Issued(c.root, c.vars, p);
    assert ls' == ls[k := ls'[k]];
    if StoredBy(ls, x) {
      var m :| 0 <= m < |ls| && ls[m].phase.Completed? && x in Targets(ls[m].activity);
      assert ls'[m] == ls[m];
    }
    if StoredBy(ls', x) {
      var m :| 0 <= m < |ls'| && ls'[m].phase.Completed? && x in Targets(ls'[m].activity);
      assert m != k && ls'[m] == ls[m];
    }
    assert forall i | 0 <= i < |log| :: log'[i] == log[i];
  }

  lemma StepKeepsJustified(act: Activities, v0: Vars, c: Config, p: Path, log: seq<Call>)
    requires Ready(c.root, p) && CallsMatchLeaves(Leaves(c.root), log)
    requires Justified(act, Leaves(c.root), log, v0, c.vars)
    ensures var c' := Step(act, c, p);
            Justified(act, Leaves(c'.root), log + Issued(c.root, c.vars, p), v0, c'.vars)
  {
    forall x
      ensures var c' := Step(act, c, p); var ls' := Leaves(c'.root);
              && (!StoredBy(ls', x) ==> AgreeOn(v0, c'.vars, {x}))
              && (StoredBy(ls', x) ==>
                    x in c'.vars && ResultOfCall(act, log + Issued(c.root, c.vars, p), x, c'.vars[x]))
    {
      if x in Effect(act, c.root, p) {
        StoredIsJustified(act, c, p, log, x);
      } else {
        OthersStayJustified(act, c, p, log, x);
      }
    }
  }

  lemma StepKeepsInvariant(act: Activities, s: Statement, v0: Vars, c: Config, log: seq<Call>, p: Path)
    requires Ready(c.root, p) && RunInvariant(act, s, v0, c, log)
    ensures RunInvariant(act, s, v0, Step(act, c, p), log + Issued(c.root, c.vars, p))
  {
    AdvanceLeaf(c.root, c.vars, p);
    StepKeepsCalls(c, p, log);
    StepKeepsJustified(act, v0, c, p, log);
  }

  lemma {:induction false} RunKeepsInvariant(act: Activities, s: Statement, v0: Vars, c: Config, log: seq<Call>,
        ps: seq<Path>)
    requires Schedule(act, c, ps) && RunInvariant(act, s, v0, c, log)
    ensures RunInvariant(act, s, v0, Exec(act, c, ps), CallsAfter(act, c, ps, log))
    decreases |ps|
  {
    if ps != [] {
      StepKeepsInvariant(act, s, v0, c, log, ps[0]);
      RunKeepsInvariant(act, s, v0, Step(act, c, ps[0]), log + Issued(c.root, c.vars, ps[0]), ps[1..]);
    }
  }

  lemma StartInvariant(act: Activities, s: Statement, v0: Vars)
    ensures RunInvariant(act, s, v0, Start(s, v0), [])
  {
    SpawnLeaves(s);
  }

  // ---------- Main results about complete runs ----------

  /** The variables some activity of the program names as its result. */
  predicate Named(s: Statement, x: string) {
    exists k | 0 <= k < |ActivitiesOf(s)| :: x in Targets(ActivitiesOf(s)[k])
  }

  /** A complete run, racy or not, changes exactly the named variables, each to the result of a call naming it. */
  lemma FinalVariables(act: Activities, s: Statement, v0: Vars, ps: seq<Path>, x: string)
    requires Schedule(act, Start(s, v0), ps) && Complete(Exec(act, Start(s, v0), ps).root)
    ensures var v := Exec(act, Start(s, v0), ps).vars;
            && (!Named(s, x) ==> AgreeOn(v0, v, {x}))
            && (Named(s, x) ==> x in v && ResultOfCall(act, Calls(act, Start(s, v0), ps), x, v[x]))
  {
    var c := Exec(act, Start(s, v0), ps);
    StartInvariant(act, s, v0);
    RunKeepsInvariant(act, s, v0, Start(s, v0), [], ps);
    CompleteLeaves(c.root);
    CompletedStoresNamed(s, Leaves(c.root), x);
  }

  lemma CompletedStoresNamed(s: Statement, ls: seq<LeafState>, x: string)
    requires |ls| == |ActivitiesOf(s)| && AllCompleted(ls)
    requires forall k | 0 <= k < |ls| :: ls[k].activity == ActivitiesOf(s)[k]
    ensures StoredBy(ls, x) <==> Named(s, x)
  {
    if Named(s, x) {
      var k :| 0 <= k < |ActivitiesOf(s)| && x in Targets(ActivitiesOf(s)[k]);
      assert ls[k].phase.Completed? && x in Targets(ls[k].activity);
    }
    if StoredBy(ls, x) {
      var k :| 0 <= k < |ls| && ls[k].phase.Completed? && x in Targets(ls[k].activity);
      assert x in Targets(ActivitiesOf(s)[k]);
    }
  }

  /**
   A program of one activity: it is called with the values of the variables it names, or the empty
   string for one that is missing, and its result is stored under its result name if it has one.
   */
  lemma SingleActivity(act: Activities, a: Invocation, v: Vars, ps: seq<Path>, args: seq<Value>)
    requires Schedule(act, Start(Activity(a), v), ps) && Complete(Exec(act, Start(Activity(a), v), ps).root)
    requires |args| == |a.arguments|
    requires forall i | 0 <= i < |args| ::
               args[i] == if a.arguments[i] in v then v[a.arguments[i]] else Text("")
    ensures Exec(act, Start(Activity(a), v), ps).vars
            == if a.result.None? || a.result.value == "" then v else v[a.result.value := act(a.name, args)]
  {
    Confluence(act, Activity(a), v, ps);
    assert Arguments(a, v) == args;
  }

  /** An activity whose result name is missing or empty stores nothing: no run ever touches the variable "". */
  lemma EmptyNameUntouched(act: Activities, s: Statement, v0: Vars, ps: seq<Path>)
    requires Schedule(act, Start(s, v0), ps) && Complete(Exec(act, Start(s, v0), ps).root)
    ensures AgreeOn(v0, Exec(act, Start(s, v0), ps).vars, {""})
  {
    FinalVariables(act, s, v0, ps, "");
  }

  /** A complete run calls every activity of the program exactly once, as the program names it. */
  lemma EachActivityOnce(act: Activities, s: Statement, v0: Vars, ps: seq<Path>)
    requires Schedule(act, Start(s, v0), ps) && Complete(Exec(act, Start(s, v0), ps).root)
    ensures var log := Calls(act, Start(s, v0), ps);
            && (forall i | 0 <= i < |log| ::
                  && log[i].leaf < |ActivitiesOf(s)| && log[i].activity == ActivitiesOf(s)[log[i].leaf]
                  && |log[i].args| == |log[i].activity.arguments|)
            && (forall i, j | 0 <= i < j < |log| :: log[i].leaf != log[j].leaf)
            && (forall k | 0 <= k < |ActivitiesOf(s)| :: Called(log, k))
  {
    var c := Exec(act, Start(s, v0), ps);
    StartInvariant(act, s, v0);
    RunKeepsInvariant(act, s, v0, Start(s, v0), [], ps);
    CompleteLeaves(c.root);
  }

  // ---------- Termination and progress ----------

  function Weight(phase: Phase): nat {
    match phase
    case Unscheduled => 2
    case Scheduled(_) => 1
    case Completed => 0
  }

  function Remaining(ls: seq<LeafState>): nat {
    if ls == [] then 0 else Weight(ls[0].phase) + Remaining(ls[1..])
  }

  lemma {:induction false} RemainingUpdate(ls: seq<LeafState>, k: nat, l: LeafState)
    requires k < |ls|
    ensures Remaining(ls[k := l]) + Weight(ls[k].phase) == Remaining(ls) + Weight(l.phase)
    decreases |ls|
  {
    if k == 0 {
      assert ls[k := l][1..] == ls[1..];
    } else {
      RemainingUpdate(ls[1..], k - 1, l);
      assert ls[k := l][1..] == ls[1..][k - 1 := l];
    }
  }

  lemma {:induction false} RemainingUniform(ls: seq<LeafState>, phase: Phase)
    requires forall k | 0 <= k < |ls| :: ls[k].phase == phase
    ensures Remaining(ls) == Weight(phase) * |ls|
    decreases |ls|
  {
    if ls != [] {
      RemainingUniform(ls[1..], phase);
    }
  }

  lemma {:induction false} NothingRemains(ls: seq<LeafState>)
    ensures Remaining(ls) == 0 <==> AllCompleted(ls)
    decreases |ls|
  {
    if ls != [] {
      NothingRemains(ls[1..]);
      assert AllCompleted(ls) <==> ls[0].phase.Completed? && AllCompleted(ls[1..]) by {
        assert forall k | 0 < k < |ls| :: ls[k] == ls[1..][k - 1];
      }
    }
  }

  lemma {:induction false} StepsCounted(act: Activities, c: Config, ps: seq<Path>)
    requires Schedule(act, c, ps)
    ensures |ps| + Remaining(Leaves(Exec(act, c, ps).root)) == Remaining(Leaves(c.root))
    decreases |ps|
  {
    if ps != [] {
      AdvanceLeaf(c.root, c.vars, ps[0]);
      var k, ls := LeafIndex(c.root, ps[0]), Leaves(c.root);
      RemainingUpdate(ls, k, LeafState(ls[k].activity, NextPhase(ls[k].activity, ls[k].phase, c.vars)));
      StepsCounted(act, Step(act, c, ps[0]), ps[1..]);
    }
  }

  /** No run is longer than two steps per activity, and a run is complete exactly when it has that length. */
  lemma RunLength(act: Activities, s: Statement, v0: Vars, ps: seq<Path>)
    requires Schedule(act, Start(s, v0), ps)
    ensures |ps| <= 2 * |ActivitiesOf(s)|
    ensures Complete(Exec(act, Start(s, v0), ps).root) <==> |ps| == 2 * |ActivitiesOf(s)|
  {
    SpawnLeaves(s);
    RemainingUniform(Leaves(Spawn(s)), Unscheduled);
    StepsCounted(act, Start(s, v0), ps);
    CompleteLeaves(Exec(act, Start(s, v0), ps).root);
    NothingRemains(Leaves(Exec(act, Start(s, v0), ps).root));
  }

  /** An incomplete task always has a leaf that is ready, whatever has been done so far. */
  lemma {:induction false} NeverBlocked(t: Task) returns (p: Path)
    requires !Complete(t)
    ensures Ready(t, p)
    decreases t
  {
    match t
    case Leaf(_, _) => p := [];
    case Steps(ts) =>
      var i := FirstIncomplete(ts);
      var q := NeverBlocked(ts[i]);
      p := [i] + q;
    case Gather(ts) =>
      var i := FirstIncomplete(ts);
      var q := NeverBlocked(ts[i]);
      p := [i] + q;
  }

  lemma {:induction false} FirstIncomplete(ts: seq<Task>) returns (i: nat)
    requires exists j | 0 <= j < |ts| :: !Complete(ts[j])
    ensures i < |ts| && !Complete(ts[i]) && forall j | 0 <= j < i :: Complete(ts[j])
    decreases |ts|
  {
    if !Complete(ts[0]) {
      i := 0;
    } else {
      i := FirstIncomplete(ts[1..]);
      i := i + 1;
    }
  }

  // ---------- Sequences are respected ----------

  predicate Started(t: Task) {
    match t
    case Leaf(_, phase) => !phase.Unscheduled?
    case Steps(ts) => exists i | 0 <= i < |ts| :: Started(ts[i])
    case Gather(ts) => exists i | 0 <= i < |ts| :: Started(ts[i])
  }

  /** Wherever an element of a sequence has started, all elements before it are complete. */
  predicate Sequenced(t: Task) {
    match t
    case Leaf(_, _) => true
    case Steps(ts) =>
      && (forall i | 0 <= i < |ts| :: Sequenced(ts[i]))
      && (forall i, j | 0 <= i < j < |ts| :: Started(ts[j]) ==> Complete(ts[i]))
    case Gather(ts) =>
      forall i | 0 <= i < |ts| :: Sequenced(ts[i])
  }

  lemma {:induction false} ReadyIncomplete(t: Task, p: Path)
    requires Ready(t, p)
    ensures !Complete(t)
    decreases t
  {
    if !t.Leaf? {
      ReadyIncomplete(t.tasks[p[0]], p[1..]);
    }
  }

  lemma {:induction false} StepKeepsSequenced(t: Task, v: Vars, p: Path)
    requires Ready(t, p) && Sequenced(t)
    ensures Sequenced(Advance(t, v, p))
    decreases t
  {
    if !t.Leaf? {
      StepKeepsSequenced(t.tasks[p[0]], v, p[1..]);
      ReadyIncomplete(t.tasks[p[0]], p[1..]);
    }
  }

  lemma {:induction false} SpawnSequenced(s: Statement)
    ensures !Started(Spawn(s)) && Sequenced(Spawn(s))
    decreases s, 1
  {
    match s
    case Activity(a) =>
    case Sequence(es) => SpawnSequencedAll(es);
    case Parallel(bs) => SpawnSequencedAll(bs);
  }

  lemma {:induction false} SpawnSequencedAll(ss: seq<Statement>)
    ensures forall i | 0 <= i < |ss| :: !Started(SpawnAll(ss)[i]) && Sequenced(SpawnAll(ss)[i])
    decreases ss, 0
  {
    if ss != [] {
      SpawnSequenced(ss[0]);
      SpawnSequencedAll(ss[1..]);
    }
  }

  lemma {:induction false} RunKeepsSequenced(act: Activities, c: Config, ps: seq<Path>)
    requires Schedule(act, c, ps) && Sequenced(c.root)
    ensures Sequenced(Exec(act, c, ps).root)
    decreases |ps|
  {
    if ps != [] {
      StepKeepsSequenced(c.root, c.vars, ps[0]);
      RunKeepsSequenced(act, Step(act, c, ps[0]), ps[1..]);
    }
  }

  /**
   In every state of every run, no activity of a sequence element has started before the elements
   ahead of it are complete.
   */
  lemma SequencesRespected(act: Activities, s: Statement, v0: Vars, ps: seq<Path>)
    requires Schedule(act, Start(s, v0), ps)
    ensures Sequenced(Exec(act, Start(s, v0), ps).root)
  {
    SpawnSequenced(s);
    RunKeepsSequenced(act, Start(s, v0), ps);
  }
}
