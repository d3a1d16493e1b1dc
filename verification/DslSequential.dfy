/**
 Exactly when a program ends as its sequential reading, and what happens where it does not: a reader
 at the front of its branch always gets the initial value.
 */
module DslSequential {
  import opened Wrappers
  import opened DslSemantics
  import opened DslConfluence
  import opened DslRuns
  import opened DslLeaves
  import opened DslGather
  import opened DslRaces
  import opened DslDeterminism

  // ---------- The sequential reading, leaf by leaf ----------

  predicate CompleteBefore(ts: seq<Task>, i: nat)
    requires i <= |ts|
  {
    forall j | 0 <= j < i :: Complete(ts[j])
  }

  /** The leaf at p is the first in the text that is not completed. */
  predicate First(t: Task, p: Path) {
    match t
    case Leaf(_, phase) => p == [] && !phase.Completed?
    case Steps(ts) => p != [] && p[0] < |ts| && CompleteBefore(ts, p[0]) && First(ts[p[0]], p[1..])
    case Gather(ts) => p != [] && p[0] < |ts| && CompleteBefore(ts, p[0]) && First(ts[p[0]], p[1..])
  }

  lemma {:induction false} FindFirst(t: Task) returns (p: Path)
    requires !Complete(t)
    ensures First(t, p)
    decreases t
  {
    if t.Leaf? {
      p := [];
    } else {
      var i := FirstIncomplete(t.tasks);
      var tail := FindFirst(t.tasks[i]);
      p := [i] + tail;
    }
  }

  lemma {:induction false} FirstReady(t: Task, p: Path)
    requires First(t, p)
    ensures Ready(t, p)
    decreases t
  {
    if !t.Leaf? {
      FirstReady(t.tasks[p[0]], p[1..]);
    }
  }

  /** Doing the first step does not change what doing everything left to right yields. */
  lemma {:induction false} FinishFirst(act: Activities, t: Task, v: Vars, p: Path)
    requires First(t, p) && Ready(t, p)
    ensures Finish(act, Advance(t, v, p), v + Effect(act, t, p)) == Finish(act, t, v)
    decreases t, 1
  {
    if t.Leaf? {
      assert v + map[] == v;
    } else {
      FinishFirstAll(act, t.tasks, v, p[0], p[1..]);
    }
  }

  lemma {:induction false} FinishFirstAll(act: Activities, ts: seq<Task>, v: Vars, i: nat, p: Path)
    requires i < |ts| && First(ts[i], p) && Ready(ts[i], p) && CompleteBefore(ts, i)
    ensures FinishAll(act, ts[i := Advance(ts[i], v, p)], v + Effect(act, ts[i], p)) == FinishAll(act, ts, v)
    decreases ts, 0
  {
    var ts' := ts[i := Advance(ts[i], v, p)];
    if i == 0 {
      FinishFirst(act, ts[0], v, p);
      assert ts'[1..] == ts[1..];
    } else {
      FinishComplete(act, ts[0], v);
      FinishComplete(act, ts[0], v + Effect(act, ts[i], p));
      FinishFirstAll(act, ts[1..], v, i - 1, p);
      assert ts'[1..] == ts[1..][i - 1 := Advance(ts[i], v, p)];
    }
  }

  lemma {:induction false} FirstEarlier(t: Task, p: Path, q: Path)
    requires First(t, p) && IsLeaf(Program(t), p) && IsLeaf(Program(t), q)
    requires Position(Program(t), q) < Position(Program(t), p)
    ensures PhaseAt(t, q).Completed?
    decreases t
  {
    if !t.Leaf? {
      var ss := ProgramAll(t.tasks);
      PhaseBelow(t, q);
      PhaseBelow(t, p);
      if q[0] < p[0] {
        CompletePhase(t.tasks[q[0]], q[1..]);
      } else if q[0] > p[0] {
        EarlierAll(ss, p[0], p[1..], q[0], q[1..]);
      } else if Position(ss[p[0]], q[1..]) < Position(ss[p[0]], p[1..]) {
        FirstEarlier(t.tasks[p[0]], p[1..], q[1..]);
      } else if Position(ss[p[0]], p[1..]) < Position(ss[p[0]], q[1..]) {
        EarlierAll(ss, p[0], p[1..], q[0], q[1..]);
      } else {
        PositionInjective(ss[p[0]], p[1..], q[1..]);
      }
    }
  }

  /** Nothing has started behind the first leaf that is not completed. */
  ghost predicate Linear(t: Task) {
    forall p, q | IsLeaf(Program(t), p) && IsLeaf(Program(t), q)
                  && Position(Program(t), p) < Position(Program(t), q) && !PhaseAt(t, p).Completed? ::
      PhaseAt(t, q).Unscheduled?
  }

  lemma FirstInTime(c: Config, r: Path)
    requires Linear(c.root) && First(c.root, r)
    ensures InTime(Textual, c, r)
  {
    var s := Program(c.root);
    if IsLeaf(s, r) && PhaseAt(c.root, r).Unscheduled? {
      forall p, x | IsLeaf(s, p) && x in Targets(LeafAt(s, p)) && x in LeafAt(s, r).arguments
        ensures PhaseAt(c.root, p).Completed? <==> WritesBefore(Textual, s, p, r, x)
      {
        if Position(s, p) < Position(s, r) {
          FirstEarlier(c.root, r, p);
        } else if Position(s, p) == Position(s, r) {
          PositionInjective(s, p, r);
        }
      }
    }
  }

  lemma StepKeepsLinear(act: Activities, c: Config, r: Path)
    requires Linear(c.root) && First(c.root, r) && Ready(c.root, r)
    ensures Linear(Step(act, c, r).root)
  {
    var s := Program(c.root);
    var t' := Step(act, c, r).root;
    StepPhases(act, c, r);
    forall p, q | IsLeaf(s, p) && IsLeaf(s, q) && Position(s, p) < Position(s, q) && !PhaseAt(t', p).Completed?
      ensures PhaseAt(t', q).Unscheduled?
    {
      if q == r {
        FirstEarlier(c.root, r, p);
      }
    }
  }

  lemma {:induction false} FinishEnds(act: Activities, s: Statement, v: Vars, c: Config)
    requires DistinctResults(s) && Tracked(act, s, v, Textual, c) && Linear(c.root)
    ensures EndsAs(act, s, v, Textual, Finish(act, c.root, c.vars))
    decreases Remaining(Leaves(c.root))
  {
    if Complete(c.root) {
      FinishComplete(act, c.root, c.vars);
      TrackedToEnd(act, s, v, Textual, c);
    } else {
      var r := FindFirst(c.root);
      FirstReady(c.root, r);
      FinishFirst(act, c.root, c.vars, r);
      FirstInTime(c, r);
      StepKeepsTracked(act, s, v, Textual, c, r);
      StepKeepsLinear(act, c, r);
      StepPhases(act, c, r);
      FinishEnds(act, s, v, Step(act, c, r));
    }
  }

  /** Read sequentially, an activity is given the results of the writers earlier in the text. */
  lemma SequentialEnds(act: Activities, s: Statement, v: Vars)
    requires DistinctResults(s)
    ensures EndsAs(act, s, v, Textual, Eval(act, s, v))
  {
    StartTracked(act, s, v, Textual);
    ProgramSpawn(s);
    forall q | IsLeaf(s, q)
      ensures PhaseAt(Spawn(s), q).Unscheduled?
    {
      SpawnPhase(s, q);
    }
    FinishEnds(act, s, v, Start(s, v));
    FinishSpawn(act, s, v);
  }

  // ---------- When all runs end as the sequential reading ----------

  /** Every reader is at the front of its branch, and stands earlier in the text than the concurrent writer. */
  ghost predicate ReadersFirst(s: Statement) {
    forall p, q, x | Clash(s, p, q, x) :: FrontWhereParting(s, p, q) && Position(s, q) < Position(s, p)
  }

  ghost predicate EndsSequentially(s: Statement) {
    forall act, v, ps | OrderedRun(act, s, v, ps) :: Exec(act, Start(s, v), ps).vars == Eval(act, s, v)
  }

  ghost predicate EagerlySequential(s: Statement) {
    forall act, v, ps | EagerRun(act, s, v, ps) :: Exec(act, Start(s, v), ps).vars == Eval(act, s, v)
  }

  lemma SameGivenFor(act: Activities, s: Statement, v: Vars, q: Path, x: string)
    requires DistinctResults(s) && ReadersFirst(s) && IsLeaf(s, q) && Targets(LeafAt(s, q)) != {}
    requires x in LeafAt(s, q).arguments
    ensures GivenFor(act, s, v, Causal, q, x) == GivenFor(act, s, v, Textual, q, x)
    decreases Position(s, q), 0
  {
    forall p
      ensures WritesBefore(Causal, s, p, q, x) <==> WritesBefore(Textual, s, p, q, x)
    {
      SameWriters(s, p, q, x);
    }
    if p :| WritesBefore(Causal, s, p, q, x) {
      DistinctSoleWriter(s, p, x);
      assert forall p' | WritesBefore(Causal, s, p', q, x) :: p' == p;
      BeforeIsEarlier(Causal, s, p, q);
      SameGiven(act, s, v, p);
    }
  }

  lemma SameWriters(s: Statement, p: Path, q: Path, x: string)
    requires ReadersFirst(s) && IsLeaf(s, q) && Targets(LeafAt(s, q)) != {} && x in LeafAt(s, q).arguments
    ensures WritesBefore(Causal, s, p, q, x) <==> WritesBefore(Textual, s, p, q, x)
  {
    if IsLeaf(s, p) && x in Targets(LeafAt(s, p)) {
      Related(s, p, q);
      if Ahead(s, p, q) {
        AheadEarlier(s, p, q);
      } else if Ahead(s, q, p) {
        AheadEarlier(s, q, p);
      } else if p != q {
        assert Clash(s, p, q, x);
      }
    }
  }

  lemma SameGiven(act: Activities, s: Statement, v: Vars, q: Path)
    requires DistinctResults(s) && ReadersFirst(s) && IsLeaf(s, q) && Targets(LeafAt(s, q)) != {}
    ensures Given(act, s, v, Causal, q) == Given(act, s, v, Textual, q)
    decreases Position(s, q), 1
  {
    forall i | 0 <= i < |LeafAt(s, q).arguments|
      ensures Given(act, s, v, Causal, q)[i] == Given(act, s, v, Textual, q)[i]
    {
      SameGivenFor(act, s, v, q, LeafAt(s, q).arguments[i]);
    }
  }

  lemma OrderedRunIsSequential(act: Activities, s: Statement, v: Vars, ps: seq<Path>)
    requires DistinctResults(s) && ReadersFirst(s) && OrderedRun(act, s, v, ps)
    ensures Exec(act, Start(s, v), ps).vars == Eval(act, s, v)
  {
    var w := Exec(act, Start(s, v), ps).vars;
    OrderedRunEnds(act, s, v, ps);
    SequentialEnds(act, s, v);
    CausalEndIsTextual(act, s, v, w);
    SameEnd(act, s, v, Textual, w, Eval(act, s, v));
  }

  lemma CausalEndIsTextual(act: Activities, s: Statement, v: Vars, w: Vars)
    requires DistinctResults(s) && ReadersFirst(s) && EndsAs(act, s, v, Causal, w)
    ensures EndsAs(act, s, v, Textual, w)
  {
    forall q, x | Stores(s, q, x)
      ensures HasResult(act, s, v, Textual, w, q, x)
    {
      assert HasResult(act, s, v, Causal, w, q, x);
      SameGiven(act, s, v, q);
    }
  }

  /** A front reader that stands behind its writer gets the initial value, and sequentially the writer's result. */
  lemma FrontReaderDiffers(s: Statement, p: Path, q: Path, x: string)
    requires DistinctResults(s) && Clash(s, p, q, x) && Position(s, p) < Position(s, q)
    ensures !EagerlySequential(s)
  {
    var y := RaceOf(s, p, q, x);
    var ps, args := ReadFirst(Recorder, s, map[], p, q, x, y);
    var b := LeafAt(s, q);
    var given := Given(Recorder, s, map[], Textual, q);
    SequentialEnds(Recorder, s, map[]);
    assert Stores(s, q, y) && HasResult(Recorder, s, map[], Textual, Eval(Recorder, s, map[]), q, y);
    var i :| 0 <= i < |b.arguments| && b.arguments[i] == x;
    GivenRecord(s, p, q, x);
    assert given[i] == GivenFor(Recorder, s, map[], Textual, q, x);
    RecordersDiffer(b.name, args, given, i);
  }

  /** Read sequentially, it is given what some recorder recorded. */
  lemma GivenRecord(s: Statement, p: Path, q: Path, x: string)
    requires Clash(s, p, q, x) && Position(s, p) < Position(s, q)
    ensures GivenFor(Recorder, s, map[], Textual, q, x).List?
  {
    assert WritesBefore(Textual, s, p, q, x);
  }

  /**
   Main result: in a program whose results have distinct names all ordered runs end as the
   sequential reading, for all activities and all initial variables, if and only if every activity
   that reads, for a result it stores, what a concurrent one writes is at the front of its branch
   and its branch comes first. The eager runs decide the same.
   */
  lemma SequentialIff(s: Statement)
    requires DistinctResults(s)
    ensures EndsSequentially(s) <==> ReadersFirst(s)
    ensures EagerlySequential(s) <==> ReadersFirst(s)
  {
    if ReadersFirst(s) {
      forall act, v, ps | OrderedRun(act, s, v, ps)
        ensures Exec(act, Start(s, v), ps).vars == Eval(act, s, v)
      {
        OrderedRunIsSequential(act, s, v, ps);
      }
      SequentiallyIsEagerly(s);
    } else {
      var p, q, x :| Clash(s, p, q, x) && !(FrontWhereParting(s, p, q) && Position(s, q) < Position(s, p));
      if FrontWhereParting(s, p, q) {
        ConcurrentSymmetric(s, p, q);
        if Position(s, p) == Position(s, q) {
          PositionInjective(s, p, q);
        }
        FrontReaderDiffers(s, p, q, x);
      } else {
        DeterministicIff(s);
        SequentialIsDeterministic(s);
      }
      if EndsSequentially(s) {
        SequentiallyIsEagerly(s);
      }
    }
  }

  lemma SequentiallyIsEagerly(s: Statement)
    requires EndsSequentially(s)
    ensures EagerlySequential(s)
  {
    forall act, v, ps | EagerRun(act, s, v, ps)
      ensures Exec(act, Start(s, v), ps).vars == Eval(act, s, v)
    {
      EagerRunsAreOrdered(act, Start(s, v), ps);
      assert OrderedRun(act, s, v, ps);
    }
  }

  lemma SequentialIsDeterministic(s: Statement)
    ensures EagerlySequential(s) ==> EagerlyDeterministic(s)
  {
  }

  // ---------- Two activities side by side ----------

  lemma PairLeaves(a: Invocation, b: Invocation, p: Path)
    ensures IsLeaf(Parallel([Activity(a), Activity(b)]), p) <==> p == [0] || p == [1]
  {
    var s := Parallel([Activity(a), Activity(b)]);
    if IsLeaf(s, p) {
      assert p == [p[0]] + p[1..];
    }
    assert [0][1..] == [] && [1][1..] == [];
  }

  lemma PairDistinct(a: Invocation, b: Invocation)
    requires Targets(a) !! Targets(b)
    ensures ActivitiesOf(Parallel([Activity(a), Activity(b)])) == [a, b]
    ensures DistinctResults(Parallel([Activity(a), Activity(b)]))
  {
    var bs := [Activity(a), Activity(b)];
    assert bs[1..] == [Activity(b)] && bs[1..][1..] == [];
    assert ActivitiesOf(bs[0]) == [a] && ActivitiesOfAll(bs[1..]) == [b];
    assert ActivitiesOf(Parallel(bs)) == ActivitiesOf(bs[0]) + ActivitiesOfAll(bs[1..]);
  }

  lemma PairGiven(act: Activities, a: Invocation, b: Invocation, v: Vars, q: Path)
    requires IsLeaf(Parallel([Activity(a), Activity(b)]), q)
    ensures var s := Parallel([Activity(a), Activity(b)]);
            Given(act, s, v, Causal, q) == Arguments(LeafAt(s, q), v)
  {
    var s := Parallel([Activity(a), Activity(b)]);
    forall p | IsLeaf(s, p)
      ensures !Ahead(s, p, q)
    {
      PairLeaves(a, b, p);
    }
  }

  /**
   Two activities side by side, with different results, are both given initial values in every
   ordered run; the sequential reading differs exactly when the first one's result changes a result
   that the second one stores.
   */
  lemma PairEnds(act: Activities, a: Invocation, b: Invocation, v: Vars, ps: seq<Path>)
    requires Targets(a) !! Targets(b) && OrderedRun(act, Parallel([Activity(a), Activity(b)]), v, ps)
    ensures var s := Parallel([Activity(a), Activity(b)]);
            var x, y := act(a.name, Arguments(a, v)), act(b.name, Arguments(b, v));
            && Exec(act, Start(s, v), ps).vars == v + Store(a, x) + Store(b, y)
            && (Exec(act, Start(s, v), ps).vars != Eval(act, s, v) <==>
                  Targets(b) != {} && act(b.name, Arguments(b, v + Store(a, x))) != y)
  {
    var s := Parallel([Activity(a), Activity(b)]);
    var x, y := act(a.name, Arguments(a, v)), act(b.name, Arguments(b, v));
    var w := Exec(act, Start(s, v), ps).vars;
    PairDistinct(a, b);
    forall p, q, z | Clash(s, p, q, z)
      ensures FrontWhereParting(s, p, q)
    {
      PairLeaves(a, b, p);
      PairLeaves(a, b, q);
      ConcurrentSymmetric(s, p, q);
      assert AtFront(s.branches[q[0]], q[1..]);
    }
    OrderedRunEnds(act, s, v, ps);
    PairResult(act, a, b, v, w);
    PairSequential(act, a, b, v, y);
  }

  lemma PairVariable(act: Activities, a: Invocation, b: Invocation, v: Vars, w: Vars, q: Path, z: string)
    requires EndsAs(act, Parallel([Activity(a), Activity(b)]), v, Causal, w) && (q == [0] || q == [1])
    requires z in Targets(if q == [0] then a else b)
    ensures var c := if q == [0] then a else b; z in w && w[z] == act(c.name, Arguments(c, v))
  {
    var s := Parallel([Activity(a), Activity(b)]);
    PairLeaves(a, b, q);
    PairGiven(act, a, b, v, q);
    assert Stores(s, q, z) && HasResult(act, s, v, Causal, w, q, z);
  }

  lemma PairResult(act: Activities, a: Invocation, b: Invocation, v: Vars, w: Vars)
    requires EndsAs(act, Parallel([Activity(a), Activity(b)]), v, Causal, w) && Targets(a) !! Targets(b)
    ensures w == v + Store(a, act(a.name, Arguments(a, v))) + Store(b, act(b.name, Arguments(b, v)))
  {
    var s := Parallel([Activity(a), Activity(b)]);
    var expected := v + Store(a, act(a.name, Arguments(a, v))) + Store(b, act(b.name, Arguments(b, v)));
    forall z
      ensures AgreeOn(w, expected, {z})
    {
      if z in Targets(a) {
        PairVariable(act, a, b, v, w, [0], z);
      } else if z in Targets(b) {
        PairVariable(act, a, b, v, w, [1], z);
      } else {
        PairOther(a, b, z);
        assert AgreeOn(v, w, {z});
      }
    }
    AgreeEverywhere(w, expected);
  }

  lemma PairOther(a: Invocation, b: Invocation, z: string)
    requires z !in Targets(a) + Targets(b)
    ensures forall q :: !Stores(Parallel([Activity(a), Activity(b)]), q, z)
  {
    forall q | IsLeaf(Parallel([Activity(a), Activity(b)]), q)
      ensures z !in Targets(LeafAt(Parallel([Activity(a), Activity(b)]), q))
    {
      PairLeaves(a, b, q);
    }
  }

  lemma PairSequential(act: Activities, a: Invocation, b: Invocation, v: Vars, y: Value)
    ensures var w := v + Store(a, act(a.name, Arguments(a, v))); var y' := act(b.name, Arguments(b, w));
            && Eval(act, Parallel([Activity(a), Activity(b)]), v) == w + Store(b, y')
            && (w + Store(b, y) != w + Store(b, y') <==> Targets(b) != {} && y' != y)
  {
    var w := v + Store(a, act(a.name, Arguments(a, v)));
    var y' := act(b.name, Arguments(b, w));
    var bs := [Activity(a), Activity(b)];
    assert bs[1..] == [Activity(b)] && bs[1..][1..] == [];
    assert Eval(act, bs[0], v) == w;
    assert EvalAll(act, bs[1..], w) == EvalAll(act, [], Eval(act, Activity(b), w)) == Eval(act, Activity(b), w);
    if Targets(b) != {} {
      var z :| z in Targets(b);
      assert (w + Store(b, y))[z] == y && (w + Store(b, y'))[z] == y';
    } else {
      assert Store(b, y) == Store(b, y');
    }
  }

  // ---------- Race-free programs and hidden races ----------

  lemma {:induction false} LeafWithin(s: Statement, p: Path)
    requires IsLeaf(s, p)
    ensures Targets(LeafAt(s, p)) <= Writes(s)
    ensures forall x | x in LeafAt(s, p).arguments :: x in Reads(s)
    decreases s
  {
    if !s.Activity? {
      var ss := if s.Sequence? then s.elements else s.branches;
      LeafWithin(ss[p[0]], p[1..]);
      ElementFootprint(ss, p[0]);
    }
  }

  lemma {:induction false} ElementFootprint(ss: seq<Statement>, i: nat)
    requires i < |ss|
    ensures Reads(ss[i]) <= ReadsAll(ss) && Writes(ss[i]) <= WritesAll(ss)
    decreases i
  {
    if i > 0 {
      ElementFootprint(ss[1..], i - 1);
    }
  }

  lemma BranchesApart(bs: seq<Statement>, i: nat, j: nat, x: string)
    requires RaceFree(Parallel(bs)) && i < |bs| && j < |bs| && i != j
    ensures !(x in Writes(bs[i]) && x in Reads(bs[j]))
  {
    if i < j {
      assert Independent(bs[i], bs[j]);
    } else {
      assert Independent(bs[j], bs[i]);
    }
  }

  /** In a race-free program no activity reads what a concurrent one writes. */
  lemma {:induction false} RaceFreeNoClash(s: Statement, p: Path, q: Path, x: string)
    requires RaceFree(s)
    ensures !Clash(s, p, q, x)
    decreases s
  {
    if Clash(s, p, q, x) {
      var ss := if s.Sequence? then s.elements else s.branches;
      if p[0] == q[0] {
        RaceFreeNoClash(ss[p[0]], p[1..], q[1..], x);
      } else {
        LeafWithin(ss[p[0]], p[1..]);
        LeafWithin(ss[q[0]], q[1..]);
        BranchesApart(ss, p[0], q[0], x);
      }
    }
  }

  /** Names that are not distinct can hide a race: the same call twice, both results stored in x. */
  lemma HiddenRace(name: string, x: string)
    requires x != ""
    ensures var s := Parallel([Activity(Invocation(name, [], Some(x))), Activity(Invocation(name, [], Some(x)))]);
            && !RaceFree(s)
            && (forall act, v, ps, qs | CompleteRun(act, s, v, ps) && CompleteRun(act, s, v, qs) ::
                  Exec(act, Start(s, v), ps).vars == Exec(act, Start(s, v), qs).vars)
  {
    var a := Invocation(name, [], Some(x));
    var s := Parallel([Activity(a), Activity(a)]);
    assert x in Targets(a);
    assert RaceFree(s) ==> Independent(s.branches[0], s.branches[1]);
    assert ActivitiesOf(s) == [a, a] by {
      assert s.branches[1..] == [Activity(a)] && s.branches[1..][1..] == [];
      assert ActivitiesOfAll(s.branches[1..]) == [a];
    }
    forall act, v, ps, qs | CompleteRun(act, s, v, ps) && CompleteRun(act, s, v, qs)
      ensures Exec(act, Start(s, v), ps).vars == Exec(act, Start(s, v), qs).vars
    {
      var w, w' := Exec(act, Start(s, v), ps).vars, Exec(act, Start(s, v), qs).vars;
      forall z
        ensures AgreeOn(w, w', {z})
      {
        SameCallResult(act, s, a, v, ps, z);
        SameCallResult(act, s, a, v, qs, z);
      }
      AgreeEverywhere(w, w');
    }
  }

  /** A program of one call only ends with its result, whatever the schedule. */
  lemma SameCallResult(act: Activities, s: Statement, a: Invocation, v: Vars, ps: seq<Path>, z: string)
    requires ActivitiesOf(s) == [a, a] && a.arguments == [] && CompleteRun(act, s, v, ps)
    ensures var w := Exec(act, Start(s, v), ps).vars;
            if z in Targets(a) then z in w && w[z] == act(a.name, []) else AgreeOn(v, w, {z})
  {
    var log := Calls(act, Start(s, v), ps);
    FinalVariables(act, s, v, ps, z);
    EachActivityOnce(act, s, v, ps);
    assert Named(s, z) <==> z in Targets(a) by {
      assert z in Targets(ActivitiesOf(s)[0]) ==> Named(s, z);
    }
  }
}
