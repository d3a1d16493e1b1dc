/**
 Activities that store nothing are silent: what they read does not matter. With their arguments
 removed a program has the same runs, so it is confluent if it is race-free without them.
 */
module DslSilent {
  import opened DslSemantics
  import opened DslConfluence
  import opened DslGather

  function MuteActivity(a: Invocation): Invocation {
    if Targets(a) == {} then a.(arguments := []) else a
  }

  /** The program without the arguments of its silent activities. */
  function Mute(s: Statement): Statement {
    match s
    case Activity(a) => Activity(MuteActivity(a))
    case Sequence(es) => Sequence(seq(|es|, i requires 0 <= i < |es| => Mute(es[i])))
    case Parallel(bs) => Parallel(seq(|bs|, i requires 0 <= i < |bs| => Mute(bs[i])))
  }

  function MutePhase(a: Invocation, phase: Phase): Phase {
    if Targets(a) == {} && phase.Scheduled? then Scheduled([]) else phase
  }

  function MuteTask(t: Task): Task {
    match t
    case Leaf(a, phase) => Leaf(MuteActivity(a), MutePhase(a, phase))
    case Steps(ts) => Steps(seq(|ts|, i requires 0 <= i < |ts| => MuteTask(ts[i])))
    case Gather(ts) => Gather(seq(|ts|, i requires 0 <= i < |ts| => MuteTask(ts[i])))
  }

  // ---------- The two programs have the same runs ----------

  lemma {:induction false} SpawnElement(ss: seq<Statement>, i: nat)
    requires i < |ss|
    ensures SpawnAll(ss)[i] == Spawn(ss[i])
    decreases i
  {
    if i > 0 {
      SpawnElement(ss[1..], i - 1);
    }
  }

  lemma {:induction false} MuteSpawn(s: Statement)
    ensures Spawn(Mute(s)) == MuteTask(Spawn(s))
    decreases s
  {
    if !s.Activity? {
      var ss := if s.Sequence? then s.elements else s.branches;
      var muted := seq(|ss|, i requires 0 <= i < |ss| => Mute(ss[i]));
      forall i | 0 <= i < |ss|
        ensures SpawnAll(muted)[i] == MuteTask(SpawnAll(ss)[i])
      {
        SpawnElement(muted, i);
        SpawnElement(ss, i);
        MuteSpawn(ss[i]);
      }
      assert SpawnAll(muted) == seq(|ss|, i requires 0 <= i < |ss| => MuteTask(SpawnAll(ss)[i]));
    }
  }

  lemma {:induction false} MuteComplete(t: Task)
    ensures Complete(MuteTask(t)) <==> Complete(t)
    decreases t
  {
    if !t.Leaf? {
      forall i | 0 <= i < |t.tasks|
        ensures Complete(MuteTask(t).tasks[i]) <==> Complete(t.tasks[i])
      {
        MuteComplete(t.tasks[i]);
      }
    }
  }

  lemma {:induction false} MuteReady(t: Task, p: Path)
    ensures Ready(MuteTask(t), p) <==> Ready(t, p)
    decreases t
  {
    if !t.Leaf? && p != [] && p[0] < |t.tasks| {
      MuteReady(t.tasks[p[0]], p[1..]);
      forall j | 0 <= j < p[0]
        ensures Complete(MuteTask(t).tasks[j]) <==> Complete(t.tasks[j])
      {
        MuteComplete(t.tasks[j]);
      }
    }
  }

  lemma {:induction false} MuteStep(act: Activities, t: Task, v: Vars, p: Path)
    requires Ready(t, p)
    ensures Ready(MuteTask(t), p)
    ensures Advance(MuteTask(t), v, p) == MuteTask(Advance(t, v, p))
    ensures Effect(act, MuteTask(t), p) == Effect(act, t, p)
    decreases t
  {
    MuteReady(t, p);
    if t.Leaf? {
      assert Targets(t.activity) == {} ==> Arguments(MuteActivity(t.activity), v) == [];
    } else {
      MuteStep(act, t.tasks[p[0]], v, p[1..]);
      assert Advance(MuteTask(t), v, p).tasks == MuteTask(Advance(t, v, p)).tasks;
    }
  }

  lemma {:induction false} MuteRun(act: Activities, c: Config, ps: seq<Path>)
    ensures Schedule(act, Config(MuteTask(c.root), c.vars), ps) <==> Schedule(act, c, ps)
    ensures Schedule(act, c, ps) ==>
              var c' := Exec(act, c, ps);
              Exec(act, Config(MuteTask(c.root), c.vars), ps) == Config(MuteTask(c'.root), c'.vars)
    decreases |ps|
  {
    if ps != [] {
      MuteReady(c.root, ps[0]);
      if Ready(c.root, ps[0]) {
        MuteStep(act, c.root, c.vars, ps[0]);
        MuteRun(act, Step(act, c, ps[0]), ps[1..]);
      }
    }
  }

  /** A schedule is a complete run of one program exactly when it is one of the other, with the same result. */
  lemma SameRuns(act: Activities, s: Statement, v: Vars, ps: seq<Path>)
    ensures CompleteRun(act, Mute(s), v, ps) <==> CompleteRun(act, s, v, ps)
    ensures CompleteRun(act, s, v, ps) ==> Exec(act, Start(Mute(s), v), ps).vars == Exec(act, Start(s, v), ps).vars
  {
    MuteSpawn(s);
    MuteRun(act, Start(s, v), ps);
    if Schedule(act, Start(s, v), ps) {
      MuteComplete(Exec(act, Start(s, v), ps).root);
    }
  }

  lemma {:induction false} MuteEval(act: Activities, s: Statement, v: Vars)
    ensures Eval(act, Mute(s), v) == Eval(act, s, v)
    decreases s, 1
  {
    match s
    case Activity(a) => assert Targets(a) == {} ==> forall r :: Store(a, r) == map[];
    case Sequence(es) => MuteEvalAll(act, es, v);
    case Parallel(bs) => MuteEvalAll(act, bs, v);
  }

  lemma {:induction false} MuteEvalAll(act: Activities, ss: seq<Statement>, v: Vars)
    ensures EvalAll(act, seq(|ss|, i requires 0 <= i < |ss| => Mute(ss[i])), v) == EvalAll(act, ss, v)
    decreases ss, 0
  {
    if ss != [] {
      var rest := ss[1..];
      MuteEval(act, ss[0], v);
      MuteEvalAll(act, rest, Eval(act, ss[0], v));
      assert seq(|ss|, i requires 0 <= i < |ss| => Mute(ss[i]))[1..]
          == seq(|rest|, i requires 0 <= i < |rest| => Mute(rest[i]));
    }
  }

  /** Confluence needs no more than that the program is race-free without its silent activities' arguments. */
  lemma SilentConfluence(act: Activities, s: Statement, v: Vars, ps: seq<Path>)
    requires RaceFree(Mute(s)) && CompleteRun(act, s, v, ps)
    ensures Exec(act, Start(s, v), ps).vars == Eval(act, s, v)
  {
    SameRuns(act, s, v, ps);
    Confluence(act, Mute(s), v, ps);
    MuteEval(act, s, v);
  }
}
