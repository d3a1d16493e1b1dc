/**
 The nodes and jobs of the cluster manager, and what assigning, deleting and checking do to
 them when each is one indivisible step (message_passing/safe_message_handlers/workflow.py).
 */
module Cluster {
  import opened Wrappers

  type Node = string
  type Job = string

  /** The mark of a bad node; it lives in the same slot as a job name. */
  const BAD: string := "BAD!"

  /** order lists the keys of the dictionary of nodes in insertion order. */
  datatype State = State(
    order: seq<Node>,
    nodes: map<Node, Option<string>>,
    jobs: set<Job>,
    started: bool,
    shutdown: bool)

  // ---------- Reading the ledger ----------

  /** The nodes with a given slot, in insertion order. */
  function Where(order: seq<Node>, nodes: map<Node, Option<string>>, slot: Option<string>): seq<Node> {
    if order == [] then []
    else (if order[0] in nodes && nodes[order[0]] == slot then [order[0]] else []) + Where(order[1..], nodes, slot)
  }

  function UnassignedNodes(s: State): seq<Node> {
    Where(s.order, s.nodes, None)
  }

  function BadNodes(s: State): set<Node> {
    set k | k in s.nodes && s.nodes[k] == Some(BAD)
  }

  function NodesWith(s: State, job: Job): set<Node> {
    set k | k in s.nodes && s.nodes[k] == Some(job)
  }

  function FreeNodes(s: State): set<Node> {
    set k | k in s.nodes && s.nodes[k] == None
  }

  function BusyNodes(s: State): set<Node> {
    set k | k in s.nodes && s.nodes[k] != None && s.nodes[k] != Some(BAD)
  }

  /** Without a job name, and for an empty one, the nodes of every job. */
  function AssignedNodes(s: State, job: Option<Job>): set<Node> {
    if job.Some? && job.value != "" then NodesWith(s, job.value) else BusyNodes(s)
  }

  /** xs[:n], which for a negative n drops the last -n elements. */
  function Prefix<T>(xs: seq<T>, n: int): seq<T> {
    if n >= 0 then xs[..if n < |xs| then n else |xs|]
    else xs[..if |xs| + n > 0 then |xs| + n else 0]
  }

  function Elements(xs: seq<Node>): set<Node> {
    set x | x in xs
  }

  /** Puts the same slot into each of some nodes. */
  function Mark(s: State, ns: set<Node>, slot: Option<string>): State {
    s.(nodes := map k | k in s.nodes :: if k in ns then slot else s.nodes[k])
  }

  // ---------- The operations as single steps ----------

  datatype Op = Assign(total: int, job: Job) | Delete(job: Job) | HealthCheck

  datatype Outcome =
    | Assigned(nodes: set<Node>)
    | Deleted
    | Checked
    | NotEnough(available: nat)
    | ShutDown
    | ActivityFailed

  /** What an operation finds when it holds the lock: an immediate outcome, or nodes to hand to an activity. */
  datatype Finding = Immediate(outcome: Outcome) | Proceed(nodes: set<Node>)

  function Look(s: State, op: Op): Finding {
    match op
    case Assign(total, job) =>
      if job in s.jobs then Immediate(Assigned(AssignedNodes(s, Some(job))))
      else if |UnassignedNodes(s)| < total then Immediate(NotEnough(|UnassignedNodes(s)|))
      else Proceed(Elements(Prefix(UnassignedNodes(s), total)))
    case Delete(job) => Proceed(Elements(Where(s.order, s.nodes, Some(job))))
    case HealthCheck => Proceed(AssignedNodes(s, None))
  }

  /** What an operation writes once its activity has succeeded; bad is what a health check reported. */
  function Write(s: State, op: Op, nodes: set<Node>, bad: set<Node>): State {
    match op
    case Assign(_, job) => Mark(s, nodes, Some(job)).(jobs := s.jobs + {job})
    case Delete(_) => Mark(s, nodes, None)
    case HealthCheck => Mark(s, bad, Some(BAD))
  }

  /** What an operation returns, read off the state it has written. */
  function Report(s: State, op: Op): Outcome {
    match op
    case Assign(_, job) => Assigned(AssignedNodes(s, Some(job)))
    case Delete(_) => Deleted
    case HealthCheck => Checked
  }

  /** An operation as one indivisible step from s to s'. */
  ghost predicate Atomically(s: State, op: Op, s': State, outcome: Outcome) {
    || (s.shutdown && !op.HealthCheck? && s' == s && outcome == ShutDown)
    || (Look(s, op) == Immediate(outcome) && s' == s)
    || (Look(s, op).Proceed? && s' == s && outcome == ActivityFailed)
    || (Look(s, op).Proceed? && Succeeds(s, op, s', outcome))
  }

  ghost predicate Succeeds(s: State, op: Op, s': State, outcome: Outcome)
    requires Look(s, op).Proceed?
  {
    exists bad :: bad <= Look(s, op).nodes && s' == Write(s, op, Look(s, op).nodes, bad) && outcome == Report(s', op)
  }

  /** The ledger: the order names every node once, and a node that is neither free nor bad has a known job. */
  ghost predicate Valid(s: State) {
    && (forall i, j | 0 <= i < j < |s.order| :: s.order[i] != s.order[j])
    && (forall k :: k in s.order <==> k in s.nodes)
    && (forall k | k in s.nodes && s.nodes[k].Some? :: s.nodes[k].value == BAD || s.nodes[k].value in s.jobs)
  }

  // ---------- The lists and the sets agree ----------

  lemma {:induction false} WhereIsNodes(order: seq<Node>, nodes: map<Node, Option<string>>, slot: Option<string>)
    requires forall i, j | 0 <= i < j < |order| :: order[i] != order[j]
    ensures forall k :: k in Where(order, nodes, slot) <==> k in order && k in nodes && nodes[k] == slot
    ensures forall i, j | 0 <= i < j < |Where(order, nodes, slot)| ::
              Where(order, nodes, slot)[i] != Where(order, nodes, slot)[j]
    decreases |order|
  {
    if order != [] {
      WhereIsNodes(order[1..], nodes, slot);
      assert forall k :: k in order <==> k == order[0] || k in order[1..];
      assert order[0] !in order[1..];
    }
  }

  lemma {:induction false} WhereSplits(xs: seq<Node>, ys: seq<Node>, nodes: map<Node, Option<string>>,
        slot: Option<string>)
    ensures Where(xs + ys, nodes, slot) == Where(xs, nodes, slot) + Where(ys, nodes, slot)
    decreases |xs|
  {
    if xs == [] {
      assert xs + ys == ys;
    } else {
      var first := if xs[0] in nodes && nodes[xs[0]] == slot then [xs[0]] else [];
      WhereSplits(xs[1..], ys, nodes, slot);
      assert (xs + ys)[0] == xs[0] && (xs + ys)[1..] == xs[1..] + ys;
      assert Where(xs + ys, nodes, slot) == first + Where(xs[1..] + ys, nodes, slot);
      assert Where(xs, nodes, slot) == first + Where(xs[1..], nodes, slot);
    }
  }

  lemma WhereOneMore(order: seq<Node>, nodes: map<Node, Option<string>>, slot: Option<string>, i: nat)
    requires i < |order|
    ensures Where(order[..i + 1], nodes, slot)
            == Where(order[..i], nodes, slot) + if order[i] in nodes && nodes[order[i]] == slot then [order[i]] else []
  {
    WhereSplits(order[..i], [order[i]], nodes, slot);
    assert order[..i + 1] == order[..i] + [order[i]];
    assert [order[i]][1..] == [];
  }

  lemma {:induction false} DistinctCount(xs: seq<Node>)
    requires forall i, j | 0 <= i < j < |xs| :: xs[i] != xs[j]
    ensures |Elements(xs)| == |xs|
    decreases |xs|
  {
    if xs != [] {
      DistinctCount(xs[1..]);
      assert Elements(xs) == {xs[0]} + Elements(xs[1..]);
      assert xs[0] !in xs[1..];
    }
  }

  /** Free, assigned and bad nodes partition the nodes. */
  lemma Partition(s: State)
    ensures FreeNodes(s) + BusyNodes(s) + BadNodes(s) == s.nodes.Keys
    ensures FreeNodes(s) !! BusyNodes(s) !! BadNodes(s)
  {
  }

  lemma MarkKeeps(s: State, ns: set<Node>, slot: Option<string>, jobs: set<Job>)
    requires Valid(s) && s.jobs <= jobs && (slot.Some? ==> slot.value == BAD || slot.value in jobs)
    ensures Valid(Mark(s, ns, slot).(jobs := jobs))
  {
  }

  lemma WriteKeepsValid(s: State, op: Op, nodes: set<Node>, bad: set<Node>)
    requires Valid(s)
    ensures Valid(Write(s, op, nodes, bad))
    ensures Write(s, op, nodes, bad).nodes.Keys == s.nodes.Keys
  {
    match op
    case Assign(_, job) => MarkKeeps(s, nodes, Some(job), s.jobs + {job});
    case Delete(_) => MarkKeeps(s, nodes, None, s.jobs);
    case HealthCheck => MarkKeeps(s, bad, Some(BAD), s.jobs);
  }

  // ---------- What each operation does ----------

  /** A first assignment takes free nodes only, as many as asked for unless a negative number was asked for. */
  lemma AssignTakesFree(s: State, total: int, job: Job)
    requires Valid(s) && Look(s, Assign(total, job)).Proceed?
    ensures var taken := Look(s, Assign(total, job)).nodes;
            && taken <= FreeNodes(s)
            && total <= |FreeNodes(s)|
            && |taken| == (if total >= 0 then total
                           else if |FreeNodes(s)| + total > 0 then |FreeNodes(s)| + total else 0)
  {
    var free := UnassignedNodes(s);
    WhereIsNodes(s.order, s.nodes, None);
    assert Elements(free) == FreeNodes(s);
    DistinctCount(free);
    DistinctCount(Prefix(free, total));
  }

  /** With order split at j, what is selected before j comes first: a prefix that reaches order[j] has all of it. */
  lemma PrefixClosed(order: seq<Node>, nodes: map<Node, Option<string>>, slot: Option<string>, n: nat, i: nat, j: nat)
    requires n <= |Where(order, nodes, slot)| && i < j < |order|
    requires forall a, b | 0 <= a < b < |order| :: order[a] != order[b]
    requires order[i] in nodes && nodes[order[i]] == slot
    requires order[j] in Where(order, nodes, slot)[..n]
    ensures order[i] in Where(order, nodes, slot)[..n]
  {
    var front, back := Where(order[..j], nodes, slot), Where(order[j..], nodes, slot);
    WhereSplits(order[..j], order[j..], nodes, slot);
    assert order[..j] + order[j..] == order;
    WhereIsNodes(order[..j], nodes, slot);
    assert order[i] == order[..j][i];
    assert order[i] in front && order[j] !in front;
    assert n >= |front| by {
      assert forall k | 0 <= k < n && k < |front| :: (front + back)[k] in front;
    }
    assert (front + back)[..n] == front + back[..n - |front|];
  }

  /** Nodes are taken in the order of the ledger: no free node ahead of a taken one is passed over. */
  lemma AssignTakesInOrder(s: State, total: int, job: Job, i: nat, j: nat)
    requires Valid(s) && Look(s, Assign(total, job)).Proceed? && i < j < |s.order|
    requires s.order[i] in FreeNodes(s) && s.order[j] in Look(s, Assign(total, job)).nodes
    ensures s.order[i] in Look(s, Assign(total, job)).nodes
  {
    var free := UnassignedNodes(s);
    var taken := Prefix(free, total);
    assert taken == free[..|taken|];
    PrefixClosed(s.order, s.nodes, None, |taken|, i, j);
  }

  /** Too few free nodes are refused, and then nothing is assigned. */
  lemma AssignRefused(s: State, total: int, job: Job)
    requires Valid(s) && job !in s.jobs
    ensures Look(s, Assign(total, job)) == Immediate(NotEnough(|FreeNodes(s)|)) <==> |FreeNodes(s)| < total
    ensures Look(s, Assign(total, job)).Proceed? <==> total <= |FreeNodes(s)|
  {
    WhereIsNodes(s.order, s.nodes, None);
    assert Elements(UnassignedNodes(s)) == FreeNodes(s);
    DistinctCount(UnassignedNodes(s));
  }

  /** A deletion picks exactly the nodes of its job; a health check looks at exactly the nodes that have one. */
  lemma DeleteAndCheckTargets(s: State, job: Job)
    requires Valid(s)
    ensures Look(s, Delete(job)) == Proceed(NodesWith(s, job))
    ensures Look(s, HealthCheck) == Proceed(BusyNodes(s))
  {
    WhereIsNodes(s.order, s.nodes, Some(job));
    assert Elements(Where(s.order, s.nodes, Some(job))) == NodesWith(s, job);
  }

  lemma MarkedFree(s: State, taken: set<Node>, job: Job)
    requires taken <= FreeNodes(s)
    ensures var s' := Mark(s, taken, Some(job));
            && NodesWith(s', job) == NodesWith(s, job) + taken
            && (job != BAD ==> BusyNodes(s') == BusyNodes(s) + taken)
            && taken !! NodesWith(s, job) && taken !! BusyNodes(s)
  {
    var s' := Mark(s, taken, Some(job));
    assert forall k | k in s.nodes :: k in s'.nodes && s'.nodes[k] == if k in taken then Some(job) else s.nodes[k];
    assert forall k | k in taken :: k in s.nodes;
  }

  /**
   The first successful assignment of a job returns exactly the nodes it took if and only if its
   name is usable: an empty name also returns the nodes of all other jobs, and the name that marks
   bad nodes also returns those.
   */
  lemma FirstAssignExact(s: State, total: int, job: Job)
    requires Valid(s) && Look(s, Assign(total, job)).Proceed?
    ensures var taken := Look(s, Assign(total, job)).nodes;
            var s' := Write(s, Assign(total, job), taken, {});
            && (forall k | k in s.nodes :: s'.nodes[k] == if k in taken then Some(job) else s.nodes[k])
            && job in s'.jobs
            && (Report(s', Assign(total, job)) == Assigned(taken)
                <==> (job == "" ==> BusyNodes(s) == {}) && (job == BAD ==> BadNodes(s) == {}))
  {
    var taken := Look(s, Assign(total, job)).nodes;
    AssignTakesFree(s, total, job);
    MarkedFree(s, taken, job);
    FirstAssignReports(s, taken, job);
  }

  lemma FirstAssignReports(s: State, taken: set<Node>, job: Job)
    requires Valid(s) && job !in s.jobs && taken <= FreeNodes(s)
    ensures AssignedNodes(Mark(s, taken, Some(job)), Some(job)) == taken
            <==> (job == "" ==> BusyNodes(s) == {}) && (job == BAD ==> BadNodes(s) == {})
  {
    MarkedFree(s, taken, job);
    if job == BAD {
      assert NodesWith(s, job) == BadNodes(s);
    } else {
      assert NodesWith(s, job) == {};
    }
  }

  /** A job that is known already is answered with exactly the nodes that hold it now, whatever is asked for. */
  lemma RepeatedAssign(s: State, total: int, job: Job)
    requires job in s.jobs
    ensures Look(s, Assign(total, job)).Immediate? && Look(s, Assign(total, job)).outcome.Assigned?
    ensures var ns := Look(s, Assign(total, job)).outcome.nodes;
            && (job != "" ==> forall k :: k in ns <==> k in s.nodes && s.nodes[k] == Some(job))
            && (job == "" ==> forall k :: k in ns <==> k in s.nodes && s.nodes[k].Some? && s.nodes[k] != Some(BAD))
  {
  }

  /** Assigning a job twice in a row answers the same, for a usable name the nodes taken first. */
  lemma AssignTwice(s: State, total: int, again: int, job: Job)
    requires Valid(s) && Look(s, Assign(total, job)).Proceed?
    ensures var taken := Look(s, Assign(total, job)).nodes;
            var s' := Write(s, Assign(total, job), taken, {});
            && Look(s', Assign(again, job)) == Immediate(Report(s', Assign(total, job)))
            && (Look(s', Assign(again, job)) == Immediate(Assigned(taken))
                <==> (job == "" ==> BusyNodes(s) == {}) && (job == BAD ==> BadNodes(s) == {}))
  {
    FirstAssignExact(s, total, job);
  }

  /** What each operation writes, node by node, when its activity has succeeded. */
  lemma WriteExact(s: State, op: Op, bad: set<Node>)
    requires Valid(s) && Look(s, op).Proceed? && bad <= Look(s, op).nodes
    ensures var taken := Look(s, op).nodes; var s' := Write(s, op, taken, bad);
            && s'.nodes.Keys == s.nodes.Keys && s'.order == s.order
            && s'.started == s.started && s'.shutdown == s.shutdown
            && s'.jobs == (if op.Assign? then s.jobs + {op.job} else s.jobs)
            && (forall k | k in s.nodes ::
                  s'.nodes[k] ==
                  match op
                  case Assign(_, job) => if k in taken then Some(job) else s.nodes[k]
                  case Delete(job) => if s.nodes[k] == Some(job) then None else s.nodes[k]
                  case HealthCheck => if k in bad then Some(BAD) else s.nodes[k])
  {
    match op
    case Delete(job) => DeleteAndCheckTargets(s, job);
    case _ =>
  }

  /** A health check moves exactly the reported nodes from the assigned to the bad ones. */
  lemma CheckMarks(s: State, bad: set<Node>)
    requires Valid(s) && bad <= Look(s, HealthCheck).nodes
    ensures var s' := Write(s, HealthCheck, Look(s, HealthCheck).nodes, bad);
            && BadNodes(s') == BadNodes(s) + bad
            && BusyNodes(s') == BusyNodes(s) - bad
            && FreeNodes(s') == FreeNodes(s)
  {
    DeleteAndCheckTargets(s, "");
    MarkedBad(s, bad);
  }

  lemma MarkedBad(s: State, bad: set<Node>)
    requires bad <= BusyNodes(s)
    ensures var s' := Mark(s, bad, Some(BAD));
            BadNodes(s') == BadNodes(s) + bad && BusyNodes(s') == BusyNodes(s) - bad && FreeNodes(s') == FreeNodes(s)
  {
    var s' := Mark(s, bad, Some(BAD));
    assert forall k | k in s.nodes :: s'.nodes[k] == if k in bad then Some(BAD) else s.nodes[k];
  }

  /** A deletion frees exactly the nodes of its job. */
  lemma DeleteFrees(s: State, job: Job)
    requires Valid(s)
    ensures var s' := Write(s, Delete(job), Look(s, Delete(job)).nodes, {});
            && NodesWith(s', job) == {}
            && FreeNodes(s') == FreeNodes(s) + NodesWith(s, job)
            && (job != BAD ==> BadNodes(s') == BadNodes(s) && BusyNodes(s') == BusyNodes(s) - NodesWith(s, job))
  {
    DeleteAndCheckTargets(s, job);
    Freed(s, job);
    if job != BAD {
      FreedOthers(s, job);
    }
  }

  lemma Freed(s: State, job: Job)
    ensures var s' := Mark(s, NodesWith(s, job), None);
            NodesWith(s', job) == {} && FreeNodes(s') == FreeNodes(s) + NodesWith(s, job)
  {
    var s' := Mark(s, NodesWith(s, job), None);
    assert forall k | k in s.nodes :: s'.nodes[k] == if s.nodes[k] == Some(job) then None else s.nodes[k];
  }

  lemma FreedOthers(s: State, job: Job)
    requires job != BAD
    ensures var s' := Mark(s, NodesWith(s, job), None);
            BadNodes(s') == BadNodes(s) && BusyNodes(s') == BusyNodes(s) - NodesWith(s, job)
  {
    var s' := Mark(s, NodesWith(s, job), None);
    assert forall k | k in s.nodes :: s'.nodes[k] == if s.nodes[k] == Some(job) then None else s.nodes[k];
  }

  /** An operation keeps the ledger and the set of nodes; one that fails or is refused changes nothing. */
  lemma AtomicallyKeeps(s: State, op: Op, s': State, outcome: Outcome)
    requires Valid(s) && Atomically(s, op, s', outcome)
    ensures Valid(s') && s'.nodes.Keys == s.nodes.Keys && s.jobs <= s'.jobs && s'.order == s.order
    ensures outcome.ActivityFailed? || outcome.ShutDown? || outcome.NotEnough? ==> s' == s
  {
    if Look(s, op).Proceed? && Succeeds(s, op, s', outcome) {
      var bad :| bad <= Look(s, op).nodes && s' == Write(s, op, Look(s, op).nodes, bad) && outcome == Report(s', op);
      WriteKeepsValid(s, op, Look(s, op).nodes, bad);
    }
  }

  /** Which slots an operation may change, and how. */
  lemma AtomicallyWrites(s: State, op: Op, s': State, outcome: Outcome, k: Node)
    requires Valid(s) && Atomically(s, op, s', outcome) && k in s.nodes
    ensures k in s'.nodes
    ensures s'.nodes[k] != s.nodes[k] ==>
              match op
              case Assign(_, job) => s.nodes[k] == None && s'.nodes[k] == Some(job) && job !in s.jobs
              case Delete(job) => s.nodes[k] == Some(job) && s'.nodes[k] == None
              case HealthCheck => s.nodes[k].Some? && s.nodes[k] != Some(BAD) && s'.nodes[k] == Some(BAD)
    ensures op.Delete? && outcome.Deleted? && s.nodes[k] == Some(op.job) ==> s'.nodes[k] == None
  {
    AtomicallyKeeps(s, op, s', outcome);
    if Look(s, op).Proceed? && Succeeds(s, op, s', outcome) {
      match op {
        case Assign(total, job) => AssignTakesFree(s, total, job);
        case Delete(job) => DeleteAndCheckTargets(s, job);
        case HealthCheck => DeleteAndCheckTargets(s, "");
      }
    }
  }

  /** Once assigned, the nodes of a job only become fewer, except for a job whose name is the mark of bad nodes. */
  lemma JobOnlyShrinks(s: State, op: Op, s': State, outcome: Outcome, job: Job)
    requires Valid(s) && Atomically(s, op, s', outcome) && job in s.jobs && job != BAD
    ensures NodesWith(s', job) <= NodesWith(s, job)
  {
    AtomicallyKeeps(s, op, s', outcome);
    forall k | k in NodesWith(s', job)
      ensures k in NodesWith(s, job)
    {
      AtomicallyWrites(s, op, s', outcome, k);
    }
  }

  /** A bad node recovers exactly when a deletion of the job named like the mark succeeds. */
  lemma BadRecoversIff(s: State, op: Op, s': State, outcome: Outcome, k: Node)
    requires Valid(s) && Atomically(s, op, s', outcome) && k in BadNodes(s)
    ensures k !in BadNodes(s') <==> op == Delete(BAD) && outcome == Deleted
  {
    AtomicallyKeeps(s, op, s', outcome);
    AtomicallyWrites(s, op, s', outcome, k);
  }
}
