/**
 Exactly when a program ends alike under every order that occurs, and exactly when it ends as its
 sequential reading, for programs in which no two activities name the same result.

 Both follow from one invariant. Given an order of the activities, each one is called with values
 that can be computed from the program alone: the results of the writers before it, and initial
 values otherwise.
 */
module DslDeterminism {
  import opened DslSemantics
  import opened DslConfluence
  import opened DslRuns
  import opened DslLeaves
  import opened DslGather
  import opened DslRaces

  /** No two activities name the same result. */
  ghost predicate DistinctResults(s: Statement) {
    forall i, j | 0 <= i < j < |ActivitiesOf(s)| :: Targets(ActivitiesOf(s)[i]) !! Targets(ActivitiesOf(s)[j])
  }

  lemma DistinctSoleWriter(s: Statement, p: Path, x: string)
    requires DistinctResults(s) && IsLeaf(s, p) && x in Targets(LeafAt(s, p))
    ensures SoleWriter(s, p, x)
  {
    LeafAtPosition(s, p);
    forall q | IsLeaf(s, q) && q != p
      ensures x !in Targets(LeafAt(s, q))
    {
      LeafAtPosition(s, q);
      if Position(s, p) == Position(s, q) {
        PositionInjective(s, p, q);
      }
    }
  }

  // ---------- What each activity is given ----------

  /** Causal: only what the sequences put ahead comes before. Textual: all that is written earlier does. */
  datatype Order = Causal | Textual

  predicate Before(o: Order, s: Statement, p: Path, q: Path)
    requires IsLeaf(s, p) && IsLeaf(s, q)
  {
    match o
    case Causal => Ahead(s, p, q)
    case Textual => Position(s, p) < Position(s, q)
  }

  predicate WritesBefore(o: Order, s: Statement, p: Path, q: Path, x: string)
    requires IsLeaf(s, q)
  {
    IsLeaf(s, p) && x in Targets(LeafAt(s, p)) && Before(o, s, p, q)
  }

  /** The arguments of the activity at q. */
  ghost function Given(act: Activities, s: Statement, v: Vars, o: Order, q: Path): (args: seq<Value>)
    requires IsLeaf(s, q)
    ensures |args| == |LeafAt(s, q).arguments|
    decreases Position(s, q), 1
  {
    seq(|LeafAt(s, q).arguments|,
        i requires 0 <= i < |LeafAt(s, q).arguments| => GivenFor(act, s, v, o, q, LeafAt(s, q).arguments[i]))
  }

  ghost function GivenFor(act: Activities, s: Statement, v: Vars, o: Order, q: Path, x: string): Value
    requires IsLeaf(s, q)
    decreases Position(s, q), 0
  {
    if p :| WritesBefore(o, s, p, q, x) then
      BeforeIsEarlier(o, s, p, q);
      ResultOf(act, s, v, o, p)
    else Lookup(v, x)
  }

  ghost function ResultOf(act: Activities, s: Statement, v: Vars, o: Order, p: Path): Value
    requires IsLeaf(s, p)
    decreases Position(s, p), 2
  {
    act(LeafAt(s, p).name, Given(act, s, v, o, p))
  }

  lemma BeforeIsEarlier(o: Order, s: Statement, p: Path, q: Path)
    requires IsLeaf(s, p) && IsLeaf(s, q) && Before(o, s, p, q)
    ensures Position(s, p) < Position(s, q)
  {
    if o.Causal? {
      AheadEarlier(s, p, q);
    }
  }

  // ---------- The invariant ----------

  /** The leaf at q has been given what it should be, and its variable holds its result once it is completed. */
  predicate Right(act: Activities, s: Statement, v: Vars, o: Order, c: Config, q: Path, given: seq<Value>)
    requires IsLeaf(s, q) && Program(c.root) == s
  {
    match PhaseAt(c.root, q)
    case Unscheduled => true
    case Scheduled(args) => args == given
    case Completed =>
      forall x | x in Targets(LeafAt(s, q)) :: x in c.vars && c.vars[x] == act(LeafAt(s, q).name, given)
  }

  predicate HasStored(c: Config, q: Path, x: string) {
    IsLeaf(Program(c.root), q) && PhaseAt(c.root, q).Completed? && x in Targets(LeafAt(Program(c.root), q))
  }

  /** An activity that stores nothing may be given anything. */
  ghost predicate Tracked(act: Activities, s: Statement, v: Vars, o: Order, c: Config) {
    && Program(c.root) == s
    && (forall q | IsLeaf(s, q) && Targets(LeafAt(s, q)) != {} :: Right(act, s, v, o, c, q, Given(act, s, v, o, q)))
    && (forall x | (forall q :: !HasStored(c, q, x)) :: AgreeOn(v, c.vars, {x}))
  }

  /** A leaf is scheduled in time: of the writers it reads from, exactly those before it are completed. */
  ghost predicate InTime(o: Order, c: Config, r: Path) {
    IsLeaf(Program(c.root), r) && PhaseAt(c.root, r).Unscheduled? && Targets(LeafAt(Program(c.root), r)) != {} ==>
      forall p, x | IsLeaf(Program(c.root), p) && x in Targets(LeafAt(Program(c.root), p))
                    && x in LeafAt(Program(c.root), r).arguments ::
        PhaseAt(c.root, p).Completed? <==> WritesBefore(o, Program(c.root), p, r, x)
  }

  lemma ArgumentInTime(act: Activities, s: Statement, v: Vars, o: Order, c: Config, r: Path, x: string)
    requires DistinctResults(s) && Tracked(act, s, v, o, c)
    requires IsLeaf(s, r) && PhaseAt(c.root, r).Unscheduled? && Targets(LeafAt(s, r)) != {} && InTime(o, c, r)
    requires x in LeafAt(s, r).arguments
    ensures Lookup(c.vars, x) == GivenFor(act, s, v, o, r, x)
  {
    assert forall q | HasStored(c, q, x) :: WritesBefore(o, s, q, r, x);
    if p :| WritesBefore(o, s, p, r, x) {
      DistinctSoleWriter(s, p, x);
      assert forall p' | WritesBefore(o, s, p', r, x) :: p' == p;
      assert PhaseAt(c.root, p).Completed?;
      assert Right(act, s, v, o, c, p, Given(act, s, v, o, p));
    } else {
      assert AgreeOn(v, c.vars, {x});
    }
  }

  lemma ArgumentsInTime(act: Activities, s: Statement, v: Vars, o: Order, c: Config, r: Path)
    requires DistinctResults(s) && Tracked(act, s, v, o, c)
    requires IsLeaf(s, r) && PhaseAt(c.root, r).Unscheduled? && Targets(LeafAt(s, r)) != {} && InTime(o, c, r)
    ensures Arguments(LeafAt(s, r), c.vars) == Given(act, s, v, o, r)
  {
    forall i | 0 <= i < |LeafAt(s, r).arguments|
      ensures Arguments(LeafAt(s, r), c.vars)[i] == Given(act, s, v, o, r)[i]
    {
      ArgumentInTime(act, s, v, o, c, r, LeafAt(s, r).arguments[i]);
    }
  }

  lemma StepKeepsRight(act: Activities, s: Statement, v: Vars, o: Order, c: Config, r: Path, q: Path)
    requires DistinctResults(s) && Tracked(act, s, v, o, c) && Ready(c.root, r) && InTime(o, c, r)
    requires IsLeaf(s, q) && Targets(LeafAt(s, q)) != {}
    ensures Program(Step(act, c, r).root) == s
    ensures Right(act, s, v, o, Step(act, c, r), q, Given(act, s, v, o, q))
  {
    StepPhases(act, c, r);
    assert Right(act, s, v, o, c, q, Given(act, s, v, o, q));
    if q == r {
      if PhaseAt(c.root, r).Unscheduled? {
        ArgumentsInTime(act, s, v, o, c, r);
      }
    } else {
      forall x | x in Targets(LeafAt(s, q))
        ensures x !in Effect(act, c.root, r)
      {
        DistinctSoleWriter(s, q, x);
      }
    }
  }

  lemma StepKeepsTracked(act: Activities, s: Statement, v: Vars, o: Order, c: Config, r: Path)
    requires DistinctResults(s) && Tracked(act, s, v, o, c) && Ready(c.root, r) && InTime(o, c, r)
    ensures Tracked(act, s, v, o, Step(act, c, r))
  {
    var c' := Step(act, c, r);
    StepPhases(act, c, r);
    forall q | IsLeaf(s, q) && Targets(LeafAt(s, q)) != {}
      ensures Right(act, s, v, o, c', q, Given(act, s, v, o, q))
    {
      StepKeepsRight(act, s, v, o, c, r, q);
    }
    forall x | forall q :: !HasStored(c', q, x)
      ensures AgreeOn(v, c'.vars, {x})
    {
      forall q
        ensures !HasStored(c, q, x)
      {
        assert !HasStored(c', q, x);
      }
      assert !HasStored(c', r, x);
      assert x !in Effect(act, c.root, r);
    }
  }

  predicate Stores(s: Statement, q: Path, x: string) {
    IsLeaf(s, q) && x in Targets(LeafAt(s, q))
  }

  ghost predicate HasResult(act: Activities, s: Statement, v: Vars, o: Order, w: Vars, q: Path, x: string)
    requires IsLeaf(s, q)
  {
    x in w && w[x] == ResultOf(act, s, v, o, q)
  }

  ghost predicate HasResults(act: Activities, s: Statement, v: Vars, o: Order, w: Vars) {
    forall q, x | Stores(s, q, x) :: HasResult(act, s, v, o, w, q, x)
  }

  ghost predicate KeepsOthers(s: Statement, v: Vars, w: Vars) {
    forall x | (forall q :: !Stores(s, q, x)) :: AgreeOn(v, w, {x})
  }

  /** The variables at the end: the result of each activity, and initial values elsewhere. */
  ghost predicate EndsAs(act: Activities, s: Statement, v: Vars, o: Order, w: Vars) {
    HasResults(act, s, v, o, w) && KeepsOthers(s, v, w)
  }

  lemma TrackedToEnd(act: Activities, s: Statement, v: Vars, o: Order, c: Config)
    requires Tracked(act, s, v, o, c) && Complete(c.root)
    ensures EndsAs(act, s, v, o, c.vars)
  {
    ResultsAtEnd(act, s, v, o, c);
    OthersAtEnd(act, s, v, o, c);
  }

  lemma ResultsAtEnd(act: Activities, s: Statement, v: Vars, o: Order, c: Config)
    requires Tracked(act, s, v, o, c) && Complete(c.root)
    ensures HasResults(act, s, v, o, c.vars)
  {
    forall q, x | Stores(s, q, x)
      ensures HasResult(act, s, v, o, c.vars, q, x)
    {
      CompletePhase(c.root, q);
      assert Right(act, s, v, o, c, q, Given(act, s, v, o, q));
    }
  }

  lemma OthersAtEnd(act: Activities, s: Statement, v: Vars, o: Order, c: Config)
    requires Tracked(act, s, v, o, c)
    ensures KeepsOthers(s, v, c.vars)
  {
    forall x | forall q :: !Stores(s, q, x)
      ensures AgreeOn(v, c.vars, {x})
    {
      forall q
        ensures !HasStored(c, q, x)
      {
        assert !Stores(s, q, x);
      }
    }
  }

  lemma AgreeEverywhere(w: Vars, w': Vars)
    requires forall x :: AgreeOn(w, w', {x})
    ensures w == w'
  {
    assert forall x :: AgreeOn(w, w', {x}) ==> (x in w <==> x in w') && (x in w ==> w[x] == w'[x]);
  }

  lemma SameEnd(act: Activities, s: Statement, v: Vars, o: Order, w: Vars, w': Vars)
    requires EndsAs(act, s, v, o, w) && EndsAs(act, s, v, o, w')
    ensures w == w'
  {
    forall x
      ensures AgreeOn(w, w', {x})
    {
      if q :| Stores(s, q, x) {
        assert HasResult(act, s, v, o, w, q, x) && HasResult(act, s, v, o, w', q, x);
      } else {
        assert AgreeOn(v, w, {x}) && AgreeOn(v, w', {x});
      }
    }
    AgreeEverywhere(w, w');
  }

  lemma StartTracked(act: Activities, s: Statement, v: Vars, o: Order)
    ensures Tracked(act, s, v, o, Start(s, v))
  {
    ProgramSpawn(s);
    forall q | IsLeaf(s, q)
      ensures PhaseAt(Spawn(s), q).Unscheduled?
    {
      SpawnPhase(s, q);
    }
  }

  // ---------- Ordered runs ----------

  /** The activity at p stores in x while the concurrent one at q reads x for a result it stores. */
  predicate Clash(s: Statement, p: Path, q: Path, x: string) {
    && IsLeaf(s, p) && IsLeaf(s, q) && Concurrent(s, p, q)
    && x in Targets(LeafAt(s, p)) && x in LeafAt(s, q).arguments && Targets(LeafAt(s, q)) != {}
  }

  /** Every such reader is at the front of its branch where it parts from the writer. */
  ghost predicate OnlyFrontsRace(s: Statement) {
    forall p, q, x | Clash(s, p, q, x) :: FrontWhereParting(s, p, q)
  }

  /** A leaf at the front of its branch starts before anything concurrent completes. */
  ghost predicate FrontsStartFirst(t: Task) {
    forall p, q | IsLeaf(Program(t), p) && IsLeaf(Program(t), q) && Concurrent(Program(t), p, q)
                  && FrontWhereParting(Program(t), p, q) ::
      PhaseAt(t, p).Completed? ==> !PhaseAt(t, q).Unscheduled?
  }

  lemma StepKeepsFronts(act: Activities, c: Config, r: Path)
    requires FrontsStartFirst(c.root) && OrderedStep(c.root, r)
    ensures FrontsStartFirst(Step(act, c, r).root)
  {
    var s := Program(c.root);
    var t' := Step(act, c, r).root;
    StepPhases(act, c, r);
    CompletesPhase(c.root, r);
    forall p, q | IsLeaf(s, p) && IsLeaf(s, q) && Concurrent(s, p, q) && FrontWhereParting(s, p, q)
                  && PhaseAt(t', p).Completed?
      ensures !PhaseAt(t', q).Unscheduled?
    {
      if p == r {
        FrontsFirst(c.root, p, q);
      }
    }
  }

  /** In an ordered run the leaves of a program whose races are at the front are scheduled in time. */
  lemma OrderedInTime(c: Config, r: Path)
    requires Sequenced(c.root) && FrontsStartFirst(c.root) && OnlyFrontsRace(Program(c.root)) && Ready(c.root, r)
    ensures InTime(Causal, c, r)
  {
    var s := Program(c.root);
    if IsLeaf(s, r) && PhaseAt(c.root, r).Unscheduled? && Targets(LeafAt(s, r)) != {} {
      forall p, x | IsLeaf(s, p) && x in Targets(LeafAt(s, p)) && x in LeafAt(s, r).arguments
        ensures PhaseAt(c.root, p).Completed? <==> WritesBefore(Causal, s, p, r, x)
      {
        Related(s, p, r);
        if Ahead(s, p, r) {
          ReadyAhead(c.root, p, r);
        } else if Ahead(s, r, p) {
          NotStartedBehind(c.root, r, p);
        } else if p != r {
          assert Clash(s, p, r, x);
        }
      }
    }
  }

  lemma {:induction false} OrderedTracked(act: Activities, s: Statement, v: Vars, c: Config, ps: seq<Path>)
    requires DistinctResults(s) && OnlyFrontsRace(s) && Tracked(act, s, v, Causal, c)
    requires Sequenced(c.root) && FrontsStartFirst(c.root) && Ordered(act, c, ps) && Schedule(act, c, ps)
    ensures Tracked(act, s, v, Causal, Exec(act, c, ps))
    decreases |ps|
  {
    if ps != [] {
      OrderedInTime(c, ps[0]);
      StepKeepsTracked(act, s, v, Causal, c, ps[0]);
      StepKeepsSequenced(c.root, c.vars, ps[0]);
      StepKeepsFronts(act, c, ps[0]);
      OrderedTracked(act, s, v, Step(act, c, ps[0]), ps[1..]);
    }
  }

  /** If only fronts race, every ordered run calls each activity with the results ahead of it and initial values. */
  lemma OrderedRunEnds(act: Activities, s: Statement, v: Vars, ps: seq<Path>)
    requires DistinctResults(s) && OnlyFrontsRace(s) && OrderedRun(act, s, v, ps)
    ensures EndsAs(act, s, v, Causal, Exec(act, Start(s, v), ps).vars)
  {
    StartTracked(act, s, v, Causal);
    SpawnSequenced(s);
    forall p | IsLeaf(s, p)
      ensures PhaseAt(Spawn(s), p).Unscheduled?
    {
      SpawnPhase(s, p);
    }
    ProgramSpawn(s);
    OrderedTracked(act, s, v, Start(s, v), ps);
    TrackedToEnd(act, s, v, Causal, Exec(act, Start(s, v), ps));
  }

  /**
   Main result: in a program whose results have distinct names all ordered runs agree, for all
   activities and all initial variables, if and only if every activity that reads, for a result it
   stores, what a concurrent one writes is at the front of its branch. The eager runs decide the
   same, and so does any set of runs between the two.
   */
  lemma DeterministicIff(s: Statement)
    requires DistinctResults(s)
    ensures Deterministic(s) <==> OnlyFrontsRace(s)
    ensures EagerlyDeterministic(s) <==> OnlyFrontsRace(s)
  {
    if OnlyFrontsRace(s) {
      forall act, v, ps, qs | OrderedRun(act, s, v, ps) && OrderedRun(act, s, v, qs)
        ensures Exec(act, Start(s, v), ps).vars == Exec(act, Start(s, v), qs).vars
      {
        OrderedRunEnds(act, s, v, ps);
        OrderedRunEnds(act, s, v, qs);
        SameEnd(act, s, v, Causal, Exec(act, Start(s, v), ps).vars, Exec(act, Start(s, v), qs).vars);
      }
      DeterministicIsEagerly(s);
    } else {
      var p, q, x :| Clash(s, p, q, x) && !FrontWhereParting(s, p, q);
      var y := RaceOf(s, p, q, x);
      RacesDisagree(s, p, q, x, y);
      if Deterministic(s) {
        DeterministicIsEagerly(s);
      }
    }
  }

  lemma RaceOf(s: Statement, p: Path, q: Path, x: string) returns (y: string)
    requires DistinctResults(s) && Clash(s, p, q, x)
    ensures Race(s, p, q, x, y)
  {
    DistinctSoleWriter(s, p, x);
    y :| y in Targets(LeafAt(s, q));
    DistinctSoleWriter(s, q, y);
  }
}
