/**
 Races that show: where an activity stores in a variable that a concurrent one reads, an eager run
 gives the reader the initial value, and another one the result of the writer unless the reader is
 at the front of its branch.
 */
module DslRaces {
  import opened DslSemantics
  import opened DslConfluence
  import opened DslRuns
  import opened DslLeaves
  import opened DslGather

  // ---------- What a variable with one writer holds ----------

  /** The leaf at p is the only one that names x as its result. */
  ghost predicate SoleWriter(s: Statement, p: Path, x: string) {
    && IsLeaf(s, p) && x in Targets(LeafAt(s, p))
    && (forall q | IsLeaf(s, q) && q != p :: x !in Targets(LeafAt(s, q)))
  }

  /** Before its writer completes, a variable has its initial value. */
  ghost predicate Untouched(c: Config, p: Path, x: string, v0: Vars) {
    SoleWriter(Program(c.root), p, x) && !PhaseAt(c.root, p).Completed? && AgreeOn(v0, c.vars, {x})
  }

  /** Once its writer has been given args, a variable will hold the result for args, and then does. */
  ghost predicate Settled(act: Activities, c: Config, p: Path, x: string, args: seq<Value>) {
    && SoleWriter(Program(c.root), p, x)
    && (PhaseAt(c.root, p) == Scheduled(args) ||
        (PhaseAt(c.root, p).Completed? && x in c.vars
         && c.vars[x] == act(LeafAt(Program(c.root), p).name, args)))
  }

  lemma StepOfSoleWriter(act: Activities, c: Config, p: Path, x: string, r: Path)
    requires SoleWriter(Program(c.root), p, x) && Ready(c.root, r)
    ensures SoleWriter(Program(Step(act, c, r).root), p, x)
    ensures p != r ==> AgreeOn(c.vars, Step(act, c, r).vars, {x})
    ensures p != r ==> PhaseAt(Step(act, c, r).root, p) == PhaseAt(c.root, p)
    ensures p == r && PhaseAt(c.root, p).Unscheduled? ==>
              Step(act, c, r).vars == c.vars
              && PhaseAt(Step(act, c, r).root, p) == Scheduled(Arguments(LeafAt(Program(c.root), p), c.vars))
    ensures forall args :: p == r && PhaseAt(c.root, p) == Scheduled(args) ==>
              var c' := Step(act, c, r);
              PhaseAt(c'.root, p).Completed? && x in c'.vars && c'.vars[x] == act(LeafAt(Program(c.root), p).name, args)
  {
    StepPhases(act, c, r);
  }

  // ---------- Both orders of a race ----------

  /** p stores in x while q, concurrent to it, reads x; each of them alone names its result. */
  ghost predicate Race(s: Statement, p: Path, q: Path, x: string, y: string) {
    && SoleWriter(s, p, x) && SoleWriter(s, q, y) && Concurrent(s, p, q)
    && x in LeafAt(s, q).arguments
  }

  /** A configuration is run to its end: a settled variable then holds its result. */
  lemma {:induction false} SettledAtEnd(act: Activities, c: Config, p: Path, x: string, args: seq<Value>)
    returns (ps: seq<Path>)
    requires Settled(act, c, p, x, args)
    ensures Schedule(act, c, ps) && Eager(act, c, ps) && Complete(Exec(act, c, ps).root)
    ensures var v := Exec(act, c, ps).vars; x in v && v[x] == act(LeafAt(Program(c.root), p).name, args)
    decreases Remaining(Leaves(c.root))
  {
    ps := [];
    if Complete(c.root) {
      CompletePhase(c.root, p);
    } else {
      var r := NextEager(c.root);
      StepPhases(act, c, r);
      StepOfSoleWriter(act, c, p, x, r);
      ps := SettledAtEnd(act, Step(act, c, r), p, x, args);
      ps := [r] + ps;
    }
  }

  /** The reader is driven on while its writer does not complete. */
  lemma {:induction false} ReadFirstFrom(act: Activities, c: Config, v: Vars, p: Path, q: Path, x: string, y: string)
    returns (ps: seq<Path>, args: seq<Value>)
    requires Race(Program(c.root), p, q, x, y) && Untouched(c, p, x, v) && PhaseAt(c.root, q).Unscheduled?
    ensures Schedule(act, c, ps) && Eager(act, c, ps) && Complete(Exec(act, c, ps).root)
    ensures var b := LeafAt(Program(c.root), q); var w := Exec(act, c, ps).vars;
            && y in w && w[y] == act(b.name, args) && |args| == |b.arguments|
            && (forall i | 0 <= i < |args| && b.arguments[i] == x :: args[i] == Lookup(v, x))
    decreases Remaining(Leaves(c.root))
  {
    var r := NextEagerToward(c.root, q);
    CompletesPhase(c.root, r);
    var c' := Step(act, c, r);
    StepPhases(act, c, r);
    StepOfSoleWriter(act, c, p, x, r);
    StepOfSoleWriter(act, c, q, y, r);
    if r == q {
      args := Arguments(LeafAt(Program(c.root), q), c.vars);
      ps := SettledAtEnd(act, c', q, y, args);
    } else {
      ps, args := ReadFirstFrom(act, c', v, p, q, x, y);
    }
    ps := [r] + ps;
  }

  /** The writer has completed; the reader will be given its result. */
  lemma {:induction false} ReadLastFrom(act: Activities, c: Config, p: Path, q: Path, x: string, y: string,
        written: seq<Value>)
    returns (ps: seq<Path>, args: seq<Value>)
    requires Race(Program(c.root), p, q, x, y) && PhaseAt(c.root, q).Unscheduled?
    requires Settled(act, c, p, x, written) && PhaseAt(c.root, p).Completed?
    ensures Schedule(act, c, ps) && Eager(act, c, ps) && Complete(Exec(act, c, ps).root)
    ensures var b := LeafAt(Program(c.root), q); var w := Exec(act, c, ps).vars;
            && y in w && w[y] == act(b.name, args) && |args| == |b.arguments|
            && (forall i | 0 <= i < |args| && b.arguments[i] == x ::
                  args[i] == act(LeafAt(Program(c.root), p).name, written))
    decreases Remaining(Leaves(c.root))
  {
    if Complete(c.root) {
      CompletePhase(c.root, q);
    }
    var r := NextEager(c.root);
    var c' := Step(act, c, r);
    StepPhases(act, c, r);
    StepOfSoleWriter(act, c, p, x, r);
    StepOfSoleWriter(act, c, q, y, r);
    if r == q {
      args := Arguments(LeafAt(Program(c.root), q), c.vars);
      ps := SettledAtEnd(act, c', q, y, args);
    } else {
      ps, args := ReadLastFrom(act, c', p, q, x, y, written);
    }
    ps := [r] + ps;
  }

  /** The writer is driven on while the guard, which is ahead of the reader, does not complete. */
  lemma {:induction false} WriteFirstFrom(act: Activities, c: Config, p: Path, q: Path, guard: Path, x: string,
        y: string)
    returns (ps: seq<Path>, args: seq<Value>, written: seq<Value>)
    requires Race(Program(c.root), p, q, x, y) && Sequenced(c.root) && !PhaseAt(c.root, p).Completed?
    requires IsLeaf(Program(c.root), guard) && Ahead(Program(c.root), guard, q) && Concurrent(Program(c.root), p, guard)
    requires !PhaseAt(c.root, guard).Completed?
    ensures Schedule(act, c, ps) && Eager(act, c, ps) && Complete(Exec(act, c, ps).root)
    ensures var b := LeafAt(Program(c.root), q); var w := Exec(act, c, ps).vars;
            && y in w && w[y] == act(b.name, args) && |args| == |b.arguments|
            && (forall i | 0 <= i < |args| && b.arguments[i] == x ::
                  args[i] == act(LeafAt(Program(c.root), p).name, written))
    decreases Remaining(Leaves(c.root))
  {
    var r := NextEagerToward(c.root, p);
    CompletesPhase(c.root, r);
    ConcurrentSymmetric(Program(c.root), p, guard);
    var c' := Step(act, c, r);
    StepPhases(act, c, r);
    StepOfSoleWriter(act, c, p, x, r);
    StepKeepsSequenced(c.root, c.vars, r);
    NotStartedBehind(c'.root, guard, q);
    if r == p && Completes(c.root, r) {
      written := PhaseAt(c.root, p).args;
      ps, args := ReadLastFrom(act, c', p, q, x, y, written);
    } else {
      ps, args, written := WriteFirstFrom(act, c', p, q, guard, x, y);
    }
    ps := [r] + ps;
  }

  /** Arguments are read when the activity is scheduled: in some run the reader is given the initial value. */
  lemma ReadFirst(act: Activities, s: Statement, v: Vars, p: Path, q: Path, x: string, y: string)
    returns (ps: seq<Path>, args: seq<Value>)
    requires Race(s, p, q, x, y)
    ensures EagerRun(act, s, v, ps)
    ensures var w := Exec(act, Start(s, v), ps).vars; y in w && w[y] == act(LeafAt(s, q).name, args)
    ensures |args| == |LeafAt(s, q).arguments|
    ensures forall i | 0 <= i < |args| && LeafAt(s, q).arguments[i] == x :: args[i] == if x in v then v[x] else Text("")
  {
    SpawnPhase(s, p);
    SpawnPhase(s, q);
    ps, args := ReadFirstFrom(act, Start(s, v), v, p, q, x, y);
  }

  /** And unless the reader is at the front of its branch, in some run it is given the result of the writer. */
  lemma WriteFirst(act: Activities, s: Statement, v: Vars, p: Path, q: Path, x: string, y: string)
    returns (ps: seq<Path>, args: seq<Value>, written: seq<Value>)
    requires Race(s, p, q, x, y) && !FrontWhereParting(s, p, q)
    ensures EagerRun(act, s, v, ps)
    ensures var w := Exec(act, Start(s, v), ps).vars; y in w && w[y] == act(LeafAt(s, q).name, args)
    ensures |args| == |LeafAt(s, q).arguments|
    ensures forall i | 0 <= i < |args| && LeafAt(s, q).arguments[i] == x :: args[i] == act(LeafAt(s, p).name, written)
  {
    var guard := GuardOf(s, p, q);
    SpawnPhase(s, p);
    SpawnPhase(s, guard);
    SpawnSequenced(s);
    ps, args, written := WriteFirstFrom(act, Start(s, v), p, q, guard, x, y);
  }

  // ---------- Races make runs disagree ----------

  /** Whatever the activities compute, all ordered runs end with the same variables. */
  ghost predicate Deterministic(s: Statement) {
    forall act, v, ps, qs | OrderedRun(act, s, v, ps) && OrderedRun(act, s, v, qs) ::
      Exec(act, Start(s, v), ps).vars == Exec(act, Start(s, v), qs).vars
  }

  /** All eager runs do. */
  ghost predicate EagerlyDeterministic(s: Statement) {
    forall act, v, ps, qs | EagerRun(act, s, v, ps) && EagerRun(act, s, v, qs) ::
      Exec(act, Start(s, v), ps).vars == Exec(act, Start(s, v), qs).vars
  }

  lemma DeterministicIsEagerly(s: Statement)
    requires Deterministic(s)
    ensures EagerlyDeterministic(s)
  {
    forall act, v, ps, qs | EagerRun(act, s, v, ps) && EagerRun(act, s, v, qs)
      ensures Exec(act, Start(s, v), ps).vars == Exec(act, Start(s, v), qs).vars
    {
      EagerRunsAreOrdered(act, Start(s, v), ps);
      EagerRunsAreOrdered(act, Start(s, v), qs);
      assert OrderedRun(act, s, v, ps) && OrderedRun(act, s, v, qs);
    }
  }

  /** Activities that record what they were called with. */
  function Recorder(name: string, args: seq<Value>): Value {
    List([Text(name)] + args)
  }

  lemma RecordersDiffer(name: string, args: seq<Value>, args': seq<Value>, i: nat)
    requires i < |args| && i < |args'| && args[i] != args'[i]
    ensures Recorder(name, args) != Recorder(name, args')
  {
    assert ([Text(name)] + args)[i + 1] != ([Text(name)] + args')[i + 1];
  }

  /** A race whose reader is not at the front shows, even when results come in one by one. */
  lemma RacesDisagree(s: Statement, p: Path, q: Path, x: string, y: string)
    requires Race(s, p, q, x, y) && !FrontWhereParting(s, p, q)
    ensures !EagerlyDeterministic(s)
  {
    var early, late, args, args', written;
    early, args := ReadFirst(Recorder, s, map[], p, q, x, y);
    late, args', written := WriteFirst(Recorder, s, map[], p, q, x, y);
    var b := LeafAt(s, q);
    var i :| 0 <= i < |b.arguments| && b.arguments[i] == x;
    RecordersDiffer(b.name, args, args', i);
  }
}
