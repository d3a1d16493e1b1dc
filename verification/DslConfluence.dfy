/**
 Confluence: in a race-free program every complete interleaving computes what the program
 computes when it is read sequentially.

 The proof follows one value through a run: Finish(t, v), the variables that result when
 everything still to do in t is done from left to right. No step changes it.
 */
module DslConfluence {
  import opened DslSemantics

  /** Completes a partly executed task left to right. */
  function Finish(act: Activities, t: Task, v: Vars): Vars
    decreases t, 1
  {
    match t
    case Leaf(a, Unscheduled) => v + Store(a, act(a.name, Arguments(a, v)))
    case Leaf(a, Scheduled(args)) => v + Store(a, act(a.name, args))
    case Leaf(a, Completed) => v
    case Steps(ts) => FinishAll(act, ts, v)
    case Gather(ts) => FinishAll(act, ts, v)
  }

  function FinishAll(act: Activities, ts: seq<Task>, v: Vars): Vars
    decreases ts, 0
  {
    if ts == [] then v else FinishAll(act, ts[1..], Finish(act, ts[0], v))
  }

  predicate AgreeOn(v: Vars, w: Vars, xs: set<string>) {
    forall x | x in xs :: (x in v <==> x in w) && (x in v ==> v[x] == w[x])
  }

  // ---------- A fresh task finishes as the program reads ----------

  lemma {:induction false} FinishSpawn(act: Activities, s: Statement, v: Vars)
    ensures Finish(act, Spawn(s), v) == Eval(act, s, v)
    decreases s, 1
  {
    match s
    case Activity(a) =>
    case Sequence(es) => FinishSpawnAll(act, es, v);
    case Parallel(bs) => FinishSpawnAll(act, bs, v);
  }

  lemma {:induction false} FinishSpawnAll(act: Activities, ss: seq<Statement>, v: Vars)
    ensures FinishAll(act, SpawnAll(ss), v) == EvalAll(act, ss, v)
    decreases ss, 0
  {
    if ss != [] {
      FinishSpawn(act, ss[0], v);
      FinishSpawnAll(act, ss[1..], Eval(act, ss[0], v));
      assert SpawnAll(ss)[1..] == SpawnAll(ss[1..]);
    }
  }

  lemma {:induction false} ProgramSpawn(s: Statement)
    ensures Program(Spawn(s)) == s
    decreases s, 1
  {
    match s
    case Activity(a) =>
    case Sequence(es) => ProgramSpawnAll(es);
    case Parallel(bs) => ProgramSpawnAll(bs);
  }

  lemma {:induction false} ProgramSpawnAll(ss: seq<Statement>)
    ensures ProgramAll(SpawnAll(ss)) == ss
    decreases ss, 0
  {
    if ss != [] {
      ProgramSpawn(ss[0]);
      ProgramSpawnAll(ss[1..]);
      assert SpawnAll(ss)[1..] == SpawnAll(ss[1..]);
    }
  }

  // ---------- Nothing is left to finish in a complete task ----------

  lemma {:induction false} FinishComplete(act: Activities, t: Task, v: Vars)
    requires Complete(t)
    ensures Finish(act, t, v) == v
    decreases t, 1
  {
    if !t.Leaf? {
      FinishCompleteAll(act, t.tasks, v);
    }
  }

  lemma {:induction false} FinishCompleteAll(act: Activities, ts: seq<Task>, v: Vars)
    requires forall i | 0 <= i < |ts| :: Complete(ts[i])
    ensures FinishAll(act, ts, v) == v
    decreases ts, 0
  {
    if ts != [] {
      FinishComplete(act, ts[0], v);
      FinishCompleteAll(act, ts[1..], v);
    }
  }

  // ---------- Finishing touches only what the program writes ----------

  lemma {:induction false} FinishOutside(act: Activities, t: Task, v: Vars, xs: set<string>)
    requires xs !! Writes(Program(t))
    ensures AgreeOn(v, Finish(act, t, v), xs)
    decreases t, 1
  {
    if !t.Leaf? {
      FinishOutsideAll(act, t.tasks, v, xs);
    }
  }

  lemma {:induction false} FinishOutsideAll(act: Activities, ts: seq<Task>, v: Vars, xs: set<string>)
    requires xs !! WritesAll(ProgramAll(ts))
    ensures AgreeOn(v, FinishAll(act, ts, v), xs)
    decreases ts, 0
  {
    if ts != [] {
      assert ProgramAll(ts)[1..] == ProgramAll(ts[1..]);
      FinishOutside(act, ts[0], v, xs);
      FinishOutsideAll(act, ts[1..], Finish(act, ts[0], v), xs);
    }
  }

  // ---------- Stores outside the footprint commute with finishing ----------

  lemma {:induction false} FinishFrame(act: Activities, t: Task, v: Vars, d: Vars)
    requires d.Keys !! Reads(Program(t)) + Writes(Program(t))
    ensures Finish(act, t, v + d) == Finish(act, t, v) + d
    decreases t, 1
  {
    match t
    case Leaf(a, phase) =>
      assert Arguments(a, v + d) == Arguments(a, v) by {
        assert forall i | 0 <= i < |a.arguments| :: a.arguments[i] in Reads(Program(t));
      }
    case Steps(ts) => FinishFrameAll(act, ts, v, d);
    case Gather(ts) => FinishFrameAll(act, ts, v, d);
  }

  lemma {:induction false} FinishFrameAll(act: Activities, ts: seq<Task>, v: Vars, d: Vars)
    requires d.Keys !! ReadsAll(ProgramAll(ts)) + WritesAll(ProgramAll(ts))
    ensures FinishAll(act, ts, v + d) == FinishAll(act, ts, v) + d
    decreases ts, 0
  {
    if ts != [] {
      assert ProgramAll(ts)[1..] == ProgramAll(ts[1..]);
      FinishFrame(act, ts[0], v, d);
      FinishFrameAll(act, ts[1..], Finish(act, ts[0], v), d);
    }
  }

  // ---------- A step seen from two sets of variables ----------

  lemma {:induction false} ChildFootprint(ts: seq<Task>, i: nat)
    requires i < |ts|
    ensures Reads(Program(ts[i])) <= ReadsAll(ProgramAll(ts))
    ensures Writes(Program(ts[i])) <= WritesAll(ProgramAll(ts))
  {
    assert ProgramAll(ts)[1..] == ProgramAll(ts[1..]);
    if i > 0 {
      ChildFootprint(ts[1..], i - 1);
    }
  }

  lemma {:induction false} AdvanceFrame(t: Task, v: Vars, w: Vars, p: Path)
    requires Ready(t, p) && AgreeOn(v, w, Reads(Program(t)))
    ensures Advance(t, v, p) == Advance(t, w, p)
    decreases t
  {
    match t
    case Leaf(a, phase) =>
      assert Arguments(a, v) == Arguments(a, w) by {
        assert forall i | 0 <= i < |a.arguments| :: a.arguments[i] in Reads(Program(t));
      }
    case Steps(ts) =>
      ChildFootprint(ts, p[0]);
      AdvanceFrame(ts[p[0]], v, w, p[1..]);
    case Gather(ts) =>
      ChildFootprint(ts, p[0]);
      AdvanceFrame(ts[p[0]], v, w, p[1..]);
  }

  lemma {:induction false} EffectWithin(act: Activities, t: Task, p: Path)
    requires Ready(t, p)
    ensures Effect(act, t, p).Keys <= Writes(Program(t))
    decreases t
  {
    if !t.Leaf? {
      ChildFootprint(t.tasks, p[0]);
      EffectWithin(act, t.tasks[p[0]], p[1..]);
    }
  }

  lemma {:induction false} AdvanceProgram(t: Task, v: Vars, p: Path)
    requires Ready(t, p)
    ensures Program(Advance(t, v, p)) == Program(t)
    decreases t
  {
    if !t.Leaf? {
      AdvanceProgram(t.tasks[p[0]], v, p[1..]);
      assert ProgramAll(Advance(t, v, p).tasks) == ProgramAll(t.tasks);
    }
  }

  // ---------- The invariant of every run ----------

  /** No step of a race-free program changes what the rest of the program will compute. */
  lemma {:induction false} FinishStable(act: Activities, t: Task, v: Vars, p: Path)
    requires Ready(t, p) && RaceFree(Program(t))
    ensures Finish(act, Advance(t, v, p), v + Effect(act, t, p)) == Finish(act, t, v)
    decreases t, 1
  {
    match t
    case Leaf(a, phase) =>
      assert v + map[] == v;
    case Steps(ts) =>
      assert RaceFree(ProgramAll(ts)[p[0]]);
      FinishStableAll(act, ts, v, p[0], p[1..]);
    case Gather(ts) =>
      assert RaceFree(ProgramAll(ts)[p[0]]);
      forall j | 0 <= j < p[0]
        ensures Independent(Program(ts[j]), Program(ts[p[0]]))
      {
        assert Independent(ProgramAll(ts)[j], ProgramAll(ts)[p[0]]);
      }
      FinishStableAll(act, ts, v, p[0], p[1..]);
  }

  lemma {:induction false} FinishStableAll(act: Activities, ts: seq<Task>, v: Vars, i: nat, p: Path)
    requires i < |ts| && Ready(ts[i], p) && RaceFree(Program(ts[i]))
    requires forall j | 0 <= j < i :: Complete(ts[j]) || Independent(Program(ts[j]), Program(ts[i]))
    ensures FinishAll(act, ts[i := Advance(ts[i], v, p)], v + Effect(act, ts[i], p)) == FinishAll(act, ts, v)
    decreases ts, 0
  {
    var d := Effect(act, ts[i], p);
    var ts' := ts[i := Advance(ts[i], v, p)];
    if i == 0 {
      FinishStable(act, ts[0], v, p);
      assert ts'[1..] == ts[1..];
    } else {
      var w := Finish(act, ts[0], v);
      assert Finish(act, ts[0], v + d) == w + d && Advance(ts[i], w, p) == Advance(ts[i], v, p) by {
        if Complete(ts[0]) {
          FinishComplete(act, ts[0], v);
          FinishComplete(act, ts[0], v + d);
        } else {
          EffectWithin(act, ts[i], p);
          FinishFrame(act, ts[0], v, d);
          FinishOutside(act, ts[0], v, Reads(Program(ts[i])));
          AdvanceFrame(ts[i], v, w, p);
        }
      }
      FinishStableAll(act, ts[1..], w, i - 1, p);
      assert ts'[1..] == ts[1..][i - 1 := Advance(ts[i], v, p)];
    }
  }

  lemma {:induction false} FinishRun(act: Activities, c: Config, ps: seq<Path>)
    requires Schedule(act, c, ps) && RaceFree(Program(c.root))
    ensures Finish(act, Exec(act, c, ps).root, Exec(act, c, ps).vars) == Finish(act, c.root, c.vars)
    decreases |ps|
  {
    if ps != [] {
      FinishStable(act, c.root, c.vars, ps[0]);
      AdvanceProgram(c.root, c.vars, ps[0]);
      FinishRun(act, Step(act, c, ps[0]), ps[1..]);
    }
  }

  /** Main result: every complete interleaving of a race-free program ends as its sequential reading. */
  lemma Confluence(act: Activities, s: Statement, v: Vars, ps: seq<Path>)
    requires RaceFree(s) && Schedule(act, Start(s, v), ps)
    requires Complete(Exec(act, Start(s, v), ps).root)
    ensures Exec(act, Start(s, v), ps).vars == Eval(act, s, v)
  {
    var c := Exec(act, Start(s, v), ps);
    ProgramSpawn(s);
    FinishRun(act, Start(s, v), ps);
    FinishComplete(act, c.root, c.vars);
    FinishSpawn(act, s, v);
  }
}
