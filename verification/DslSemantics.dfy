/**
 The workflow DSL of dsl/workflow.py: its statements, their sequential reading, and the
 interleaved execution of the interpreter's coroutines.

 An activity's arguments are read when it is scheduled and its result is stored when it
 completes; between those two moments any other branch of an enclosing parallel node may run.
 */
module DslSemantics {
  import opened Wrappers

  /** What a variable may hold: any JSON-like value. */
  datatype Value =
    | Null
    | Bool(b: bool)
    | Number(n: int)
    | Text(s: string)
    | List(items: seq<Value>)
    | Object(fields: map<string, Value>)

  type Vars = map<string, Value>

  /** An activity is a function of its name and its arguments only. */
  type Activities = (string, seq<Value>) -> Value

  datatype Invocation = Invocation(name: string, arguments: seq<string>, result: Option<string>)

  datatype Statement =
    | Activity(activity: Invocation)
    | Sequence(elements: seq<Statement>)
    | Parallel(branches: seq<Statement>)

  // ---------- Reading and storing variables ----------

  function Lookup(v: Vars, x: string): Value {
    if x in v then v[x] else Text("")
  }

  function Arguments(a: Invocation, v: Vars): seq<Value> {
    seq(|a.arguments|, i requires 0 <= i < |a.arguments| => Lookup(v, a.arguments[i]))
  }

  /** A missing result name and an empty one both mean that the result is dropped. */
  function Targets(a: Invocation): set<string> {
    if a.result.Some? && a.result.value != "" then {a.result.value} else {}
  }

  function Store(a: Invocation, r: Value): Vars {
    map x | x in Targets(a) :: r
  }

  // ---------- The sequential reading of a program ----------

  /** Runs every statement to its end before the next one, the branches of a parallel node included. */
  function Eval(act: Activities, s: Statement, v: Vars): Vars
    decreases s, 1
  {
    match s
    case Activity(a) => v + Store(a, act(a.name, Arguments(a, v)))
    case Sequence(es) => EvalAll(act, es, v)
    case Parallel(bs) => EvalAll(act, bs, v)
  }

  function EvalAll(act: Activities, ss: seq<Statement>, v: Vars): Vars
    decreases ss, 0
  {
    if ss == [] then v else EvalAll(act, ss[1..], Eval(act, ss[0], v))
  }

  // ---------- Footprints and races ----------

  function Reads(s: Statement): set<string>
    decreases s, 1
  {
    match s
    case Activity(a) => set x | x in a.arguments
    case Sequence(es) => ReadsAll(es)
    case Parallel(bs) => ReadsAll(bs)
  }

  function ReadsAll(ss: seq<Statement>): set<string>
    decreases ss, 0
  {
    if ss == [] then {} else Reads(ss[0]) + ReadsAll(ss[1..])
  }

  function Writes(s: Statement): set<string>
    decreases s, 1
  {
    match s
    case Activity(a) => Targets(a)
    case Sequence(es) => WritesAll(es)
    case Parallel(bs) => WritesAll(bs)
  }

  function WritesAll(ss: seq<Statement>): set<string>
    decreases ss, 0
  {
    if ss == [] then {} else Writes(ss[0]) + WritesAll(ss[1..])
  }

  /** Neither statement writes a variable that the other reads or writes. */
  predicate Independent(a: Statement, b: Statement) {
    && Writes(a) !! Reads(b) + Writes(b)
    && Writes(b) !! Reads(a)
  }

  predicate RaceFree(s: Statement) {
    match s
    case Activity(_) => true
    case Sequence(es) => forall i | 0 <= i < |es| :: RaceFree(es[i])
    case Parallel(bs) =>
      && (forall i | 0 <= i < |bs| :: RaceFree(bs[i]))
      && (forall i, j | 0 <= i < j < |bs| :: Independent(bs[i], bs[j]))
  }

  // ---------- Interleaved execution ----------

  datatype Phase = Unscheduled | Scheduled(args: seq<Value>) | Completed

  /** The tree of coroutines of a running program; it has the shape of the program. */
  datatype Task =
    | Leaf(activity: Invocation, phase: Phase)
    | Steps(tasks: seq<Task>)
    | Gather(tasks: seq<Task>)

  function Spawn(s: Statement): Task
    decreases s, 1
  {
    match s
    case Activity(a) => Leaf(a, Unscheduled)
    case Sequence(es) => Steps(SpawnAll(es))
    case Parallel(bs) => Gather(SpawnAll(bs))
  }

  function SpawnAll(ss: seq<Statement>): (ts: seq<Task>)
    ensures |ts| == |ss|
    decreases ss, 0
  {
    if ss == [] then [] else [Spawn(ss[0])] + SpawnAll(ss[1..])
  }

  /** The program that a task runs, its progress forgotten. */
  function Program(t: Task): Statement
    decreases t, 1
  {
    match t
    case Leaf(a, _) => Activity(a)
    case Steps(ts) => Sequence(ProgramAll(ts))
    case Gather(ts) => Parallel(ProgramAll(ts))
  }

  function ProgramAll(ts: seq<Task>): (ss: seq<Statement>)
    ensures |ss| == |ts|
    ensures forall i | 0 <= i < |ts| :: ss[i] == Program(ts[i])
    decreases ts, 0
  {
    if ts == [] then [] else [Program(ts[0])] + ProgramAll(ts[1..])
  }

  predicate Complete(t: Task) {
    match t
    case Leaf(_, phase) => phase.Completed?
    case Steps(ts) => forall i | 0 <= i < |ts| :: Complete(ts[i])
    case Gather(ts) => forall i | 0 <= i < |ts| :: Complete(ts[i])
  }

  /** The way from the root of a task tree to one of its leaves. */
  type Path = seq<nat>

  /** The leaf at p may take its next step: every earlier element of each sequence around it is complete. */
  predicate Ready(t: Task, p: Path) {
    match t
    case Leaf(_, phase) => p == [] && !phase.Completed?
    case Steps(ts) =>
      && p != [] && p[0] < |ts| && Ready(ts[p[0]], p[1..])
      && (forall j | 0 <= j < p[0] :: Complete(ts[j]))
    case Gather(ts) =>
      p != [] && p[0] < |ts| && Ready(ts[p[0]], p[1..])
  }

  function NextPhase(a: Invocation, phase: Phase, v: Vars): Phase
    requires !phase.Completed?
  {
    if phase.Unscheduled? then Scheduled(Arguments(a, v)) else Completed
  }

  function LeafEffect(act: Activities, a: Invocation, phase: Phase): Vars {
    if phase.Scheduled? then Store(a, act(a.name, phase.args)) else map[]
  }

  /** The tree after the leaf at p has been scheduled or completed. */
  function Advance(t: Task, v: Vars, p: Path): Task
    requires Ready(t, p)
  {
    match t
    case Leaf(a, phase) => Leaf(a, NextPhase(a, phase, v))
    case Steps(ts) => Steps(ts[p[0] := Advance(ts[p[0]], v, p[1..])])
    case Gather(ts) => Gather(ts[p[0] := Advance(ts[p[0]], v, p[1..])])
  }

  /** What that step stores in the variables. */
  function Effect(act: Activities, t: Task, p: Path): Vars
    requires Ready(t, p)
  {
    match t
    case Leaf(a, phase) => LeafEffect(act, a, phase)
    case Steps(ts) => Effect(act, ts[p[0]], p[1..])
    case Gather(ts) => Effect(act, ts[p[0]], p[1..])
  }

  datatype Config = Config(root: Task, vars: Vars)

  function Step(act: Activities, c: Config, p: Path): Config
    requires Ready(c.root, p)
  {
    Config(Advance(c.root, c.vars, p), c.vars + Effect(act, c.root, p))
  }

  /** A schedule picks, step by step, a leaf that is ready. */
  predicate Schedule(act: Activities, c: Config, ps: seq<Path>)
    decreases |ps|
  {
    ps == [] || (Ready(c.root, ps[0]) && Schedule(act, Step(act, c, ps[0]), ps[1..]))
  }

  function Exec(act: Activities, c: Config, ps: seq<Path>): Config
    requires Schedule(act, c, ps)
    decreases |ps|
  {
    if ps == [] then c else Exec(act, Step(act, c, ps[0]), ps[1..])
  }

  function Start(s: Statement, v: Vars): Config {
    Config(Spawn(s), v)
  }
}
