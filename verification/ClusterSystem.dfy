/**
 The cluster manager with interleaved handlers: each operation waits for the cluster, queues on
 the lock, takes a snapshot, awaits an activity and then writes. It refines the system in which
 every operation is one indivisible step. The model covers a first run of the workflow.
 */
module ClusterSystem {
  import opened Wrappers
  import opened Cluster

  type Id = nat

  datatype Handler =
    | Arrived(op: Op)                        // waits until the cluster has started
    | Queued(op: Op)                         // waits for the lock
    | Holding(op: Op, snapshot: set<Node>)   // has the lock and awaits its activity
    | Finished(op: Op, outcome: Outcome)

  datatype System = System(cluster: State, handlers: map<Id, Handler>, lock: Option<Id>)

  datatype Event =
    | ClusterStarted(nodes: seq<Node>)
    | Accepted(id: Id, op: Op)
    | Entered(id: Id)                        // the cluster has started: the shutdown test is made here
    | Locked(id: Id)                         // the lock is taken and the ledger is read
    | ActivitySucceeded(id: Id, bad: set<Node>)
    | ActivityFails(id: Id)
    | ShutdownRequested

  predicate Enabled(s: System, e: Event) {
    match e
    case ClusterStarted(_) => !s.cluster.started
    case Accepted(id, _) => id !in s.handlers
    case Entered(id) => id in s.handlers && s.handlers[id].Arrived? && s.cluster.started
    case Locked(id) => id in s.handlers && s.handlers[id].Queued? && s.lock.None?
    case ActivitySucceeded(id, bad) =>
      id in s.handlers && s.handlers[id].Holding? && bad <= s.handlers[id].snapshot
    case ActivityFails(id) => id in s.handlers && s.handlers[id].Holding?
    case ShutdownRequested => s.cluster.started
  }

  function Slots(nodes: seq<Node>): map<Node, Option<string>> {
    map k | k in nodes :: None
  }

  /** The keys of a dictionary built from a list: repeated entries count once. */
  function Distinct(xs: seq<Node>): seq<Node> {
    if xs == [] then []
    else
      var rest := Distinct(xs[..|xs| - 1]);
      if xs[|xs| - 1] in rest then rest else rest + [xs[|xs| - 1]]
  }

  function Enter(s: System, id: Id): Handler
    requires Enabled(s, Entered(id))
  {
    var op := s.handlers[id].op;
    if s.cluster.shutdown && !op.HealthCheck? then Finished(op, ShutDown) else Queued(op)
  }

  function Apply(s: System, e: Event): System
    requires Enabled(s, e)
  {
    match e
    case ClusterStarted(nodes) =>
      s.(cluster := s.cluster.(order := Distinct(nodes), nodes := Slots(nodes), started := true))
    case Accepted(id, op) => s.(handlers := s.handlers[id := Arrived(op)])
    case Entered(id) => s.(handlers := s.handlers[id := Enter(s, id)])
    case Locked(id) =>
      var op := s.handlers[id].op;
      match Look(s.cluster, op) {
        case Immediate(outcome) => s.(handlers := s.handlers[id := Finished(op, outcome)])
        case Proceed(nodes) => s.(handlers := s.handlers[id := Holding(op, nodes)], lock := Some(id))
      }
    case ActivitySucceeded(id, bad) =>
      var h := s.handlers[id];
      var cluster := Write(s.cluster, h.op, h.snapshot, bad);
      System(cluster, s.handlers[id := Finished(h.op, Report(cluster, h.op))], None)
    case ActivityFails(id) =>
      System(s.cluster, s.handlers[id := Finished(s.handlers[id].op, ActivityFailed)], None)
    case ShutdownRequested => s.(cluster := s.cluster.(shutdown := true))
  }

  predicate Run(s: System, es: seq<Event>)
    decreases |es|
  {
    es == [] || (Enabled(s, es[0]) && Run(Apply(s, es[0]), es[1..]))
  }

  function Exec(s: System, es: seq<Event>): System
    requires Run(s, es)
    decreases |es|
  {
    if es == [] then s else Exec(Apply(s, es[0]), es[1..])
  }

  function Initial(): System {
    System(State([], map[], {}, false, false), map[], None)
  }

  // ---------- The invariant ----------

  /** A taken lock has a holder, and what the holder read is what it would read now. */
  ghost predicate Invariant(s: System) {
    && Valid(s.cluster)
    && (s.lock.Some? ==> s.lock.value in s.handlers && s.handlers[s.lock.value].Holding?)
    && (!s.cluster.started ==> s.cluster.nodes == map[] && s.cluster.jobs == {} && !s.cluster.shutdown)
    && (forall id | id in s.handlers && s.handlers[id].Holding? ::
          s.lock == Some(id) && Look(s.cluster, s.handlers[id].op) == Proceed(s.handlers[id].snapshot))
    && (forall id | id in s.handlers && !s.handlers[id].Arrived? :: s.cluster.started)
  }

  lemma {:induction false} DistinctListing(xs: seq<Node>)
    ensures forall i, j | 0 <= i < j < |Distinct(xs)| :: Distinct(xs)[i] != Distinct(xs)[j]
    ensures forall k :: k in Distinct(xs) <==> k in xs
    decreases |xs|
  {
    if xs != [] {
      DistinctListing(xs[..|xs| - 1]);
      assert xs == xs[..|xs| - 1] + [xs[|xs| - 1]];
      assert forall k :: k in xs <==> k in xs[..|xs| - 1] || k == xs[|xs| - 1];
    }
  }

  /** Adding one more id to the dictionary of free nodes. */
  lemma OneMoreNode(ids: seq<Node>, i: nat)
    requires i < |ids|
    ensures Slots(ids[..i + 1]) == Slots(ids[..i])[ids[i] := None]
    ensures Distinct(ids[..i + 1])
            == if ids[i] in Slots(ids[..i]) then Distinct(ids[..i]) else Distinct(ids[..i]) + [ids[i]]
  {
    assert ids[..i + 1] == ids[..i] + [ids[i]];
    assert ids[..i + 1][..i] == ids[..i];
    DistinctListing(ids[..i]);
  }

  lemma StartKeeps(s: System, nodes: seq<Node>)
    requires Invariant(s) && !s.cluster.started
    ensures Invariant(Apply(s, ClusterStarted(nodes)))
  {
    DistinctListing(nodes);
  }

  lemma LookIgnoresShutdown(s: State, op: Op)
    ensures Look(s.(shutdown := true), op) == Look(s, op)
  {
    match op
    case Assign(_, _) => assert UnassignedNodes(s.(shutdown := true)) == UnassignedNodes(s);
    case _ =>
  }

  lemma StepKeepsInvariant(s: System, e: Event)
    requires Invariant(s) && Enabled(s, e)
    ensures Invariant(Apply(s, e))
  {
    match e
    case ClusterStarted(nodes) => StartKeeps(s, nodes);
    case ActivitySucceeded(id, bad) =>
      WriteKeepsValid(s.cluster, s.handlers[id].op, s.handlers[id].snapshot, bad);
    case ShutdownRequested =>
      forall id | id in s.handlers && s.handlers[id].Holding?
        ensures Look(Apply(s, e).cluster, s.handlers[id].op) == Proceed(s.handlers[id].snapshot)
      {
        LookIgnoresShutdown(s.cluster, s.handlers[id].op);
      }
    case _ =>
  }

  lemma {:induction false} RunKeepsInvariant(s: System, es: seq<Event>)
    requires Invariant(s) && Run(s, es)
    ensures Invariant(Exec(s, es))
    decreases |es|
  {
    if es != [] {
      StepKeepsInvariant(s, es[0]);
      RunKeepsInvariant(Apply(s, es[0]), es[1..]);
    }
  }

  // ---------- The atomic system and the refinement ----------

  /** The specification: operations are pending or done; there is no lock and no snapshot. */
  datatype Spec = Spec(cluster: State, pending: map<Id, Op>, done: map<Id, Outcome>)

  ghost predicate SpecStep(a: Spec, a': Spec) {
    || a' == a
    || SpecStarts(a, a')
    || (a.cluster.started && a' == a.(cluster := a.cluster.(shutdown := true)))
    || (exists id: Id, op: Op :: SpecAccepts(a, a', id, op))
    || (exists id: Id :: SpecFinishes(a, a', id))
  }

  ghost predicate SpecStarts(a: Spec, a': Spec) {
    && !a.cluster.started && a'.cluster.started
    && (forall k | k in a'.cluster.nodes :: a'.cluster.nodes[k] == None)
    && Valid(a'.cluster)
    && a' == a.(cluster := a'.cluster)
    && a'.cluster.jobs == a.cluster.jobs && a'.cluster.shutdown == a.cluster.shutdown
  }

  predicate SpecAccepts(a: Spec, a': Spec, id: Id, op: Op) {
    id !in a.pending && id !in a.done && a' == a.(pending := a.pending[id := op])
  }

  /** One pending operation happens, all at once. */
  ghost predicate SpecFinishes(a: Spec, a': Spec, id: Id) {
    && id in a.pending && id in a'.done
    && a.cluster.started
    && a'.pending == a.pending - {id} && a'.done == a.done[id := a'.done[id]]
    && Atomically(a.cluster, a.pending[id], a'.cluster, a'.done[id])
  }

  function Abstract(s: System): Spec {
    Spec(s.cluster,
         map id | id in s.handlers && !s.handlers[id].Finished? :: s.handlers[id].op,
         map id | id in s.handlers && s.handlers[id].Finished? :: s.handlers[id].outcome)
  }

  lemma Finishes(s: System, s': System, id: Id, outcome: Outcome)
    requires id in s.handlers && !s.handlers[id].Finished? && s.cluster.started
    requires s'.handlers == s.handlers[id := Finished(s.handlers[id].op, outcome)]
    requires Atomically(s.cluster, s.handlers[id].op, s'.cluster, outcome)
    ensures SpecStep(Abstract(s), Abstract(s'))
  {
    assert Abstract(s').pending == Abstract(s).pending - {id};
    assert Abstract(s').done == Abstract(s).done[id := outcome];
    assert SpecFinishes(Abstract(s), Abstract(s'), id);
  }

  lemma Silent(s: System, s': System, id: Id)
    requires id in s.handlers && !s.handlers[id].Finished? && s'.cluster == s.cluster
    requires id in s'.handlers && s'.handlers == s.handlers[id := s'.handlers[id]]
    requires !s'.handlers[id].Finished? && s'.handlers[id].op == s.handlers[id].op
    ensures Abstract(s') == Abstract(s)
  {
  }

  /** Every step of the interleaved system is a step of the atomic one, or changes nothing there. */
  lemma StepRefines(s: System, e: Event)
    requires Invariant(s) && Enabled(s, e)
    ensures SpecStep(Abstract(s), Abstract(Apply(s, e)))
  {
    var s' := Apply(s, e);
    match e
    case ClusterStarted(nodes) =>
      StartKeeps(s, nodes);
      assert SpecStarts(Abstract(s), Abstract(s'));
    case Accepted(id, op) =>
      assert Abstract(s').pending == Abstract(s).pending[id := op];
      assert Abstract(s').done == Abstract(s).done;
      assert SpecAccepts(Abstract(s), Abstract(s'), id, op);
    case Entered(id) =>
      if s'.handlers[id].Finished? {
        Finishes(s, s', id, ShutDown);
      } else {
        Silent(s, s', id);
      }
    case Locked(id) =>
      if s'.handlers[id].Finished? {
        Finishes(s, s', id, s'.handlers[id].outcome);
      } else {
        Silent(s, s', id);
      }
    case ActivitySucceeded(id, bad) =>
      var h := s.handlers[id];
      assert Succeeds(s.cluster, h.op, s'.cluster, s'.handlers[id].outcome);
      Finishes(s, s', id, s'.handlers[id].outcome);
    case ActivityFails(id) =>
      Finishes(s, s', id, ActivityFailed);
    case ShutdownRequested =>
      assert Abstract(s') == Abstract(s).(cluster := Abstract(s).cluster.(shutdown := true));
  }

  ghost predicate SpecRun(trace: seq<Spec>) {
    trace != [] && forall i | 0 <= i < |trace| - 1 :: SpecStep(trace[i], trace[i + 1])
  }

  /** The states that an interleaved run passes through, seen as atomic states. */
  ghost function Trace(s: System, es: seq<Event>): (trace: seq<Spec>)
    requires Run(s, es)
    ensures trace != [] && trace[0] == Abstract(s)
    decreases |es|
  {
    [Abstract(s)] + if es == [] then [] else Trace(Apply(s, es[0]), es[1..])
  }

  lemma {:induction false} RunRefines(s: System, es: seq<Event>)
    requires Invariant(s) && Run(s, es)
    ensures SpecRun(Trace(s, es)) && Trace(s, es)[|Trace(s, es)| - 1] == Abstract(Exec(s, es))
    decreases |es|
  {
    if es != [] {
      var s' := Apply(s, es[0]);
      StepRefines(s, es[0]);
      StepKeepsInvariant(s, es[0]);
      RunRefines(s', es[1..]);
      var trace, rest := Trace(s, es), Trace(s', es[1..]);
      forall i | 0 <= i < |trace| - 1
        ensures SpecStep(trace[i], trace[i + 1])
      {
        if i > 0 {
          assert trace[i] == rest[i - 1] && trace[i + 1] == rest[i];
        }
      }
    }
  }

  /** Main result: every execution of the interleaved manager, from its start, is an execution of the atomic one. */
  lemma InterleavedRefinesAtomic(es: seq<Event>)
    requires Run(Initial(), es)
    ensures var trace := Trace(Initial(), es);
            && trace[0] == Spec(State([], map[], {}, false, false), map[], map[])
            && SpecRun(trace)
            && trace[|trace| - 1] == Abstract(Exec(Initial(), es))
  {
    RunRefines(Initial(), es);
    assert Abstract(Initial()) == Spec(State([], map[], {}, false, false), map[], map[]);
  }

  // ---------- What is written when an activity succeeds ----------

  /** A successful assignment, deletion or check changes exactly the slots it should, by what it read under the lock. */
  lemma CommitExact(s: System, id: Id, bad: set<Node>)
    requires Invariant(s) && Enabled(s, ActivitySucceeded(id, bad))
    ensures var op := s.handlers[id].op; var s' := Apply(s, ActivitySucceeded(id, bad));
            var c, c' := s.cluster, s'.cluster;
            && s'.lock.None? && id in s'.handlers && s'.handlers[id].Finished? && s'.handlers[id].op == op
            && c'.nodes.Keys == c.nodes.Keys
            && match op
               case Assign(_, job) =>
                 && FreeNodes(c') == FreeNodes(c) - s.handlers[id].snapshot
                 && (forall k | k in c.nodes ::
                       c'.nodes[k] == if k in s.handlers[id].snapshot then Some(job) else c.nodes[k])
                 && c'.jobs == c.jobs + {job}
               case Delete(job) =>
                 && FreeNodes(c') == FreeNodes(c) + NodesWith(c, job) && NodesWith(c', job) == {} && c'.jobs == c.jobs
                 && s'.handlers[id].outcome == Deleted
               case HealthCheck =>
                 && BadNodes(c') == BadNodes(c) + bad && BusyNodes(c') == BusyNodes(c) - bad
                 && FreeNodes(c') == FreeNodes(c) && c'.jobs == c.jobs
                 && s'.handlers[id].outcome == Checked
  {
    var op := s.handlers[id].op;
    WriteExact(s.cluster, op, bad);
    match op
    case Assign(total, job) => AssignTakesFree(s.cluster, total, job);
    case Delete(job) => DeleteFrees(s.cluster, job);
    case HealthCheck => CheckMarks(s.cluster, bad);
  }

  // ---------- Consequences for whole runs ----------

  lemma StepChangesBy(s: System, e: Event, job: Job, k: Node)
    requires Invariant(s) && Enabled(s, e) && s.cluster.started
    ensures Apply(s, e).cluster.nodes.Keys == s.cluster.nodes.Keys && s.cluster.jobs <= Apply(s, e).cluster.jobs
    ensures Apply(s, e).cluster.started
    ensures job in s.cluster.jobs && job != BAD ==> NodesWith(Apply(s, e).cluster, job) <= NodesWith(s.cluster, job)
    ensures k in BadNodes(s.cluster) ==>
              (k !in BadNodes(Apply(s, e).cluster) <==>
               e.ActivitySucceeded? && s.handlers[e.id].op == Delete(BAD))
  {
    if e.ActivitySucceeded? {
      var op := s.handlers[e.id].op;
      var s' := Apply(s, e);
      assert Succeeds(s.cluster, op, s'.cluster, s'.handlers[e.id].outcome);
      AtomicallyKeeps(s.cluster, op, s'.cluster, s'.handlers[e.id].outcome);
      if job in s.cluster.jobs && job != BAD {
        JobOnlyShrinks(s.cluster, op, s'.cluster, s'.handlers[e.id].outcome, job);
      }
      if k in BadNodes(s.cluster) {
        BadRecoversIff(s.cluster, op, s'.cluster, s'.handlers[e.id].outcome, k);
      }
    }
  }

  predicate NeverDeletes(es: seq<Event>, job: Job) {
    forall i | 0 <= i < |es| :: es[i].Accepted? ==> es[i].op != Delete(job)
  }

  predicate NoDeletion(s: System, job: Job) {
    forall id | id in s.handlers :: s.handlers[id].op != Delete(job)
  }

  /**
   Once the cluster has started the set of nodes is fixed and split into free, assigned and bad
   ones; the nodes of an assigned job only become fewer; and bad nodes stay bad as long as nobody
   deletes the job named like their mark.
   */
  lemma {:induction false} LedgerOverRuns(s: System, es: seq<Event>, job: Job)
    requires Invariant(s) && s.cluster.started && Run(s, es)
    ensures var c, c' := s.cluster, Exec(s, es).cluster;
            && c'.nodes.Keys == c.nodes.Keys
            && FreeNodes(c') + BusyNodes(c') + BadNodes(c') == c.nodes.Keys
            && (FreeNodes(c') !! BusyNodes(c') !! BadNodes(c'))
            && (job in c.jobs && job != BAD ==> job in c'.jobs && NodesWith(c', job) <= NodesWith(c, job))
            && (NoDeletion(s, BAD) && NeverDeletes(es, BAD) ==> BadNodes(c) <= BadNodes(c'))
    decreases |es|
  {
    if es == [] {
      Partition(s.cluster);
    } else {
      LedgerStep(s, es[0], job);
      StepKeepsInvariant(s, es[0]);
      LedgerOverRuns(Apply(s, es[0]), es[1..], job);
      if NoDeletion(s, BAD) && NeverDeletes(es, BAD) {
        assert NeverDeletes(es[1..], BAD);
      }
    }
  }

  lemma LedgerStep(s: System, e: Event, job: Job)
    requires Invariant(s) && s.cluster.started && Enabled(s, e)
    ensures var c, c' := s.cluster, Apply(s, e).cluster;
            && c'.nodes.Keys == c.nodes.Keys && c'.started && c.jobs <= c'.jobs
            && (job in c.jobs && job != BAD ==> NodesWith(c', job) <= NodesWith(c, job))
            && (NoDeletion(s, BAD) ==> BadNodes(c) <= BadNodes(c'))
    ensures NoDeletion(s, BAD) && (e.Accepted? ==> e.op != Delete(BAD)) ==> NoDeletion(Apply(s, e), BAD)
  {
    StepChangesBy(s, e, job, "");
    if NoDeletion(s, BAD) {
      forall k | k in BadNodes(s.cluster)
        ensures k in BadNodes(Apply(s, e).cluster)
      {
        StepChangesBy(s, e, job, k);
      }
    }
  }

  /**
   A job that has been assigned is answered with exactly the nodes that hold it then, all of which it
   had before, however many are asked for.
   */
  lemma LaterAssignReturnsSubset(s: System, es: seq<Event>, id: Id)
    requires Invariant(s) && s.cluster.started && Run(s, es) && Enabled(Exec(s, es), Locked(id))
    requires Exec(s, es).handlers[id].op.Assign? && Exec(s, es).handlers[id].op.job in s.cluster.jobs
    ensures var job := Exec(s, es).handlers[id].op.job; var h := Apply(Exec(s, es), Locked(id)).handlers[id];
            && h.Finished? && h.outcome.Assigned?
            && (job != "" ==> h.outcome.nodes == NodesWith(Exec(s, es).cluster, job))
            && (job == "" ==> h.outcome.nodes == BusyNodes(Exec(s, es).cluster))
            && (job != "" && job != BAD ==> h.outcome.nodes <= NodesWith(s.cluster, job))
  {
    RunKeepsJobs(s, es);
    RepeatedAssign(Exec(s, es).cluster, Exec(s, es).handlers[id].op.total, Exec(s, es).handlers[id].op.job);
    LedgerOverRuns(s, es, Exec(s, es).handlers[id].op.job);
  }

  /**
   A deleted job still counts as assigned: every later assignment of it is answered at once with no
   nodes.
   */
  lemma DeletedJobStaysEmpty(s: System, done: Event, es: seq<Event>, id: Id)
    requires Invariant(s) && done.ActivitySucceeded? && Enabled(s, done) && s.handlers[done.id].op.Delete?
    requires Run(Apply(s, done), es) && Enabled(Exec(Apply(s, done), es), Locked(id))
    requires var job := s.handlers[done.id].op.job;
             && job in s.cluster.jobs && job != "" && job != BAD
             && Exec(Apply(s, done), es).handlers[id].op.Assign? && Exec(Apply(s, done), es).handlers[id].op.job == job
    ensures var s' := Exec(Apply(s, done), es);
            Apply(s', Locked(id)).handlers[id] == Finished(s'.handlers[id].op, Assigned({}))
  {
    var job := s.handlers[done.id].op.job;
    var s1 := Apply(s, done);
    StepKeepsInvariant(s, done);
    DeleteAndCheckTargets(s.cluster, job);
    assert NodesWith(s1.cluster, job) == {};
    LaterAssignReturnsSubset(s1, es, id);
  }

  lemma {:induction false} RunKeepsJobs(s: System, es: seq<Event>)
    requires Run(s, es)
    ensures s.cluster.jobs <= Exec(s, es).cluster.jobs
    decreases |es|
  {
    if es != [] {
      RunKeepsJobs(Apply(s, es[0]), es[1..]);
    }
  }

  // ---------- Shutdown ----------

  /** An assignment or deletion that reaches the shutdown test after shutdown has one outcome: it is refused. */
  predicate Refused(s: System, id: Id) {
    id in s.handlers ==>
      !s.handlers[id].op.HealthCheck? ==>
        s.handlers[id].Arrived? || s.handlers[id] == Finished(s.handlers[id].op, ShutDown)
  }

  lemma {:induction false} ShutdownRefuses(s: System, es: seq<Event>, id: Id)
    requires s.cluster.started && s.cluster.shutdown && Refused(s, id) && Run(s, es)
    ensures Refused(Exec(s, es), id) && Exec(s, es).cluster.shutdown
    decreases |es|
  {
    if es != [] {
      ShutdownRefuses(Apply(s, es[0]), es[1..], id);
    }
  }

  lemma {:induction false} Append(s: System, es: seq<Event>, more: seq<Event>)
    requires Run(s, es) && Run(Exec(s, es), more)
    ensures Run(s, es + more) && Exec(s, es + more) == Exec(Exec(s, es), more)
    decreases |es|
  {
    if es == [] {
      assert es + more == more;
    } else {
      Append(Apply(s, es[0]), es[1..], more);
      assert (es + more)[1..] == es[1..] + more;
    }
  }

  lemma Then(s: System, es: seq<Event>, e: Event)
    requires Run(s, es) && Enabled(Exec(s, es), e)
    ensures Run(s, es + [e]) && Exec(s, es + [e]) == Apply(Exec(s, es), e)
  {
    assert [e][1..] == [];
    Append(s, es, [e]);
  }

  /** The order in which operations take the lock in a run. */
  function LockOrder(es: seq<Event>): seq<Id> {
    if es == [] then []
    else LockOrder(es[..|es| - 1]) + if es[|es| - 1].Locked? then [es[|es| - 1].id] else []
  }

  lemma LockOrderThen(es: seq<Event>, e: Event)
    ensures LockOrder(es + [e]) == LockOrder(es) + if e.Locked? then [e.id] else []
  {
    assert (es + [e])[..|es|] == es;
  }

  /** The holder of the lock can give it up without changing the ledger: its activity may fail. */
  lemma GiveUp(s: System, h: Id)
    requires Invariant(s) && s.lock == Some(h)
    ensures Enabled(s, ActivityFails(h)) && Invariant(Apply(s, ActivityFails(h)))
    ensures var s' := Apply(s, ActivityFails(h));
            && s'.lock.None? && s'.cluster == s.cluster
            && s'.handlers == s.handlers[h := Finished(s.handlers[h].op, ActivityFailed)]
  {
    StepKeepsInvariant(s, ActivityFails(h));
  }

  lemma Unlock(s: System) returns (es: seq<Event>)
    requires Invariant(s)
    ensures Run(s, es) && Exec(s, es).lock.None? && Exec(s, es).cluster == s.cluster && Invariant(Exec(s, es))
    ensures LockOrder(es) == []
    ensures forall id | id in s.handlers && s.handlers[id].Queued? ::
              id in Exec(s, es).handlers && Exec(s, es).handlers[id] == s.handlers[id]
  {
    es := [];
    if s.lock.Some? {
      GiveUp(s, s.lock.value);
      Then(s, [], ActivityFails(s.lock.value));
      LockOrderThen([], ActivityFails(s.lock.value));
      es := [] + [ActivityFails(s.lock.value)];
    }
  }

  /** Some queued operations, in the order in which they are to take the lock. */
  predicate Queue(s: System, ids: seq<Id>) {
    && (forall i | 0 <= i < |ids| :: ids[i] in s.handlers && s.handlers[ids[i]].Queued?)
    && (forall i, j | 0 <= i < j < |ids| :: ids[i] != ids[j])
  }

  /** The first operation of a queue takes the free lock and gives it up without changing the ledger. */
  lemma ServeOne(s: System, before: seq<Event>, ids: seq<Id>) returns (es: seq<Event>)
    requires Run(s, before) && Invariant(Exec(s, before)) && Exec(s, before).lock.None?
    requires ids != [] && Queue(Exec(s, before), ids)
    ensures Run(s, es) && Invariant(Exec(s, es)) && Exec(s, es).lock.None?
    ensures Exec(s, es).cluster == Exec(s, before).cluster
    ensures LockOrder(es) == LockOrder(before) + [ids[0]] && Queue(Exec(s, es), ids[1..])
    ensures forall id | id in Exec(s, before).handlers && id != ids[0] ::
              id in Exec(s, es).handlers && Exec(s, es).handlers[id] == Exec(s, before).handlers[id]
  {
    var s1 := Exec(s, before);
    Then(s, before, Locked(ids[0]));
    LockOrderThen(before, Locked(ids[0]));
    StepKeepsInvariant(s1, Locked(ids[0]));
    es := before + [Locked(ids[0])];
    var s2 := Apply(s1, Locked(ids[0]));
    assert s2.cluster == s1.cluster && s2.handlers == s1.handlers[ids[0] := s2.handlers[ids[0]]];
    if s2.lock.Some? {
      GiveUp(s2, ids[0]);
      Then(s, es, ActivityFails(ids[0]));
      LockOrderThen(es, ActivityFails(ids[0]));
      es := es + [ActivityFails(ids[0])];
    }
  }

  lemma {:induction false} ServeAll(s: System, before: seq<Event>, ids: seq<Id>, last: Id) returns (es: seq<Event>)
    requires Run(s, before) && Invariant(Exec(s, before)) && Exec(s, before).lock.None?
    requires last in Exec(s, before).handlers && Queue(Exec(s, before), ids + [last])
    ensures Run(s, es) && Invariant(Exec(s, es)) && Exec(s, es).lock.None?
    ensures Exec(s, es).cluster == Exec(s, before).cluster && LockOrder(es) == LockOrder(before) + ids
    ensures last in Exec(s, es).handlers && Exec(s, es).handlers[last] == Exec(s, before).handlers[last]
    decreases |ids|
  {
    if ids == [] {
      es := before;
      assert (ids + [last])[0] == last;
    } else {
      var all := ids + [last];
      assert all[0] == ids[0] && all[1..] == ids[1..] + [last];
      assert last != ids[0] by {
        assert all[|ids|] == last;
      }
      var first := ServeOne(s, before, all);
      es := ServeAll(s, first, ids[1..], last);
      assert LockOrder(before) + [ids[0]] + ids[1..] == LockOrder(before) + ids;
    }
  }

  /** A queued operation that can proceed comes to hold the lock, after those ahead of it. */
  lemma ReachLock(s: System, ahead: seq<Id>, id: Id) returns (es: seq<Event>)
    requires Invariant(s) && id in s.handlers && s.handlers[id].Queued? && Queue(s, ahead + [id])
    requires Look(s.cluster, s.handlers[id].op).Proceed?
    ensures Run(s, es) && LockOrder(es) == ahead + [id] && Exec(s, es).cluster == s.cluster
    ensures id in Exec(s, es).handlers
    ensures Exec(s, es).handlers[id] == Holding(s.handlers[id].op, Look(s.cluster, s.handlers[id].op).nodes)
  {
    var free := Unlock(s);
    assert Queue(Exec(s, free), ahead + [id]);
    var served := ServeAll(s, free, ahead, id);
    Then(s, served, Locked(id));
    LockOrderThen(served, Locked(id));
    es := served + [Locked(id)];
    assert LockOrder(free) + ahead + [id] == ahead + [id];
  }

  /**
   An operation that queues on the lock or holds it can still be carried out on the ledger as it is,
   whoever is ahead of it in the queue.
   */
  lemma CanComplete(s: System, ahead: seq<Id>, id: Id, bad: set<Node>) returns (es: seq<Event>)
    requires Invariant(s) && id in s.handlers
    requires s.handlers[id].Holding? || Queue(s, ahead + [id])
    requires Look(s.cluster, s.handlers[id].op).Proceed? && bad <= Look(s.cluster, s.handlers[id].op).nodes
    ensures Run(s, es) && (s.handlers[id].Queued? ==> LockOrder(es) == ahead + [id])
    ensures var op := s.handlers[id].op; var written := Write(s.cluster, op, Look(s.cluster, op).nodes, bad);
            Exec(s, es).cluster == written
            && id in Exec(s, es).handlers && Exec(s, es).handlers[id] == Finished(op, Report(written, op))
  {
    es := [];
    if !s.handlers[id].Holding? {
      assert (ahead + [id])[|ahead|] == id;
      es := ReachLock(s, ahead, id);
    }
    Then(s, es, ActivitySucceeded(id, bad));
    LockOrderThen(es, ActivitySucceeded(id, bad));
    es := es + [ActivitySucceeded(id, bad)];
  }

  /**
   An operation that queues on the lock or holds it when shutdown is requested can still write,
   whoever is ahead of it in the queue: nothing after the shutdown test asks again.
   */
  lemma QueuedSurvivesShutdown(s: System, ahead: seq<Id>, id: Id, bad: set<Node>) returns (es: seq<Event>)
    requires Invariant(s) && id in s.handlers
    requires s.handlers[id].Holding? || Queue(s, ahead + [id])
    requires Look(s.cluster, s.handlers[id].op).Proceed? && bad <= Look(s.cluster, s.handlers[id].op).nodes
    ensures Run(s, [ShutdownRequested] + es) && (s.handlers[id].Queued? ==> LockOrder(es) == ahead + [id])
    ensures var op := s.handlers[id].op; var s' := Exec(s, [ShutdownRequested] + es);
            && s'.cluster == Write(s.cluster, op, Look(s.cluster, op).nodes, bad).(shutdown := true)
            && id in s'.handlers && s'.handlers[id] == Finished(op, Report(s'.cluster, op))
  {
    assert (ahead + [id])[|ahead|] == id;
    var s1 := Apply(s, ShutdownRequested);
    StepKeepsInvariant(s, ShutdownRequested);
    LookIgnoresShutdown(s.cluster, s.handlers[id].op);
    es := CanComplete(s1, ahead, id, bad);
    assert ([ShutdownRequested] + es)[1..] == es;
  }

  /** The run gives the operation an outcome, and not a refusal for shutdown. */
  predicate Answers(s: System, es: seq<Event>, id: Id) {
    && Run(s, es) && id in Exec(s, es).handlers
    && Exec(s, es).handlers[id].Finished? && Exec(s, es).handlers[id].outcome != ShutDown
  }

  /** An operation that queues on the lock or holds it can be answered. */
  lemma CanBeAnswered(s: System, id: Id) returns (es: seq<Event>)
    requires Invariant(s) && id in s.handlers && (s.handlers[id].Queued? || s.handlers[id].Holding?)
    ensures Answers(s, es, id)
  {
    if Look(s.cluster, s.handlers[id].op).Proceed? {
      assert s.handlers[id].Queued? ==> Queue(s, [] + [id]);
      es := CanComplete(s, [], id, {});
    } else {
      es := Unlock(s);
      Then(s, es, Locked(id));
      es := es + [Locked(id)];
    }
  }

  /**
   After shutdown, an assignment or deletion that is not finished can still be answered with
   something else than a refusal if and only if it has passed the shutdown test.
   */
  lemma AnsweredAfterShutdownIff(s: System, id: Id)
    requires Invariant(s) && s.cluster.shutdown
    requires id in s.handlers && !s.handlers[id].Finished? && !s.handlers[id].op.HealthCheck?
    ensures (exists es :: Answers(s, es, id))
            <==> s.handlers[id].Queued? || s.handlers[id].Holding?
  {
    if s.handlers[id].Arrived? {
      forall es | Run(s, es)
        ensures !Answers(s, es, id)
      {
        ShutdownRefuses(s, es, id);
        OpStays(s, es, id);
      }
    } else {
      var es := CanBeAnswered(s, id);
    }
  }

  lemma {:induction false} OpStays(s: System, es: seq<Event>, id: Id)
    requires Run(s, es) && id in s.handlers
    ensures id in Exec(s, es).handlers && Exec(s, es).handlers[id].op == s.handlers[id].op
    decreases |es|
  {
    if es != [] {
      OpStays(Apply(s, es[0]), es[1..], id);
    }
  }

  /**
   Such an operation is reached from the start: an assignment that can proceed queues behind a
   health check that holds the lock.
   */
  lemma QueuedBehindHolder(nodes: seq<Node>, job: Job, total: int) returns (es: seq<Event>)
    requires total <= |Distinct(nodes)|
    ensures Run(Initial(), es)
    ensures var s := Exec(Initial(), es);
            && Invariant(s) && !s.cluster.shutdown && s.cluster.nodes == Slots(nodes)
            && 0 in s.handlers && s.handlers[0].Holding? && s.lock == Some(0)
            && 1 in s.handlers && s.handlers[1] == Queued(Assign(total, job))
            && Look(s.cluster, Assign(total, job)).Proceed?
  {
    es := [ClusterStarted(nodes)];
    Then(Initial(), [], ClusterStarted(nodes));
    es := AcceptAndEnter(es, 0, HealthCheck);
    Then(Initial(), es, Locked(0));
    es := es + [Locked(0)];
    es := AcceptAndEnter(es, 1, Assign(total, job));
    var s := Exec(Initial(), es);
    RunKeepsInvariant(Initial(), es);
    FreshClusterIsFree(s.cluster, nodes);
    AssignRefused(s.cluster, total, job);
  }

  lemma AcceptAndEnter(before: seq<Event>, id: Id, op: Op) returns (es: seq<Event>)
    requires Run(Initial(), before)
    requires var s := Exec(Initial(), before); s.cluster.started && !s.cluster.shutdown && id !in s.handlers
    ensures Run(Initial(), es)
    ensures var s := Exec(Initial(), before);
            Exec(Initial(), es) == s.(handlers := s.handlers[id := Queued(op)])
  {
    Then(Initial(), before, Accepted(id, op));
    es := before + [Accepted(id, op)];
    Then(Initial(), es, Entered(id));
    es := es + [Entered(id)];
  }

  lemma FreshClusterIsFree(s: State, nodes: seq<Node>)
    requires s.nodes == Slots(nodes)
    ensures |FreeNodes(s)| == |Distinct(nodes)|
  {
    DistinctListing(nodes);
    DistinctCount(Distinct(nodes));
    assert Elements(Distinct(nodes)) == FreeNodes(s);
  }

  // ---------- The end of the run ----------

  /** The workflow returns after shutdown, when every handler has finished. */
  predicate CanReturn(s: System) {
    s.cluster.shutdown && forall id | id in s.handlers :: s.handlers[id].Finished?
  }

  /**
   When the workflow may return, nothing is left half done: the lock is free, and the operations
   that have an outcome are exactly those that were accepted.
   */
  lemma ReturnsWhenQuiet(es: seq<Event>)
    requires Run(Initial(), es) && CanReturn(Exec(Initial(), es))
    ensures var s := Exec(Initial(), es);
            && (forall id :: id in Abstract(s).done <==> WasAccepted(es, id))
            && s.lock.None?
  {
    RunKeepsInvariant(Initial(), es);
    AcceptedStay(Initial(), es);
  }

  predicate WasAccepted(es: seq<Event>, id: Id) {
    exists i | 0 <= i < |es| :: es[i].Accepted? && es[i].id == id
  }

  /** A run adds handlers for exactly the operations it accepts. */
  lemma {:induction false} AcceptedStay(s: System, es: seq<Event>)
    requires Run(s, es)
    ensures forall id :: id in Exec(s, es).handlers <==> id in s.handlers || WasAccepted(es, id)
    decreases |es|
  {
    if es != [] {
      AcceptedStay(Apply(s, es[0]), es[1..]);
      forall id
        ensures WasAccepted(es, id) <==> (es[0].Accepted? && es[0].id == id) || WasAccepted(es[1..], id)
      {
        if WasAccepted(es[1..], id) {
          var i :| 0 <= i < |es[1..]| && es[1..][i].Accepted? && es[1..][i].id == id;
          assert es[i + 1] == es[1..][i];
        }
        if WasAccepted(es, id) {
          var i :| 0 <= i < |es| && es[i].Accepted? && es[i].id == id;
          if i > 0 {
            assert es[1..][i - 1] == es[i];
          }
        }
      }
    }
  }
}
