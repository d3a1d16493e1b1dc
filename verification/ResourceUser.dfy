/**
 One user of the pool: a chain of ResourceUserWorkflow runs together with the
 ResourcePoolClient of its current run (resource_pool/resource_user_workflow.py,
 resource_pool/pool_client/resource_pool_client.py).
 */
module ResourceUser {
  import opened Wrappers
  import opened ResourcePool

  /** A resource the user may use, with the key that releases it. */
  datatype Lock = Lock(resource: Resource, key: Key)

  datatype Iteration = First | Second

  /** reattach carries a lock over from the run before. */
  datatype Input = Input(failAfter: Option<string>, continueAsNew: bool, reattach: Option<Lock>)

  datatype Phase =
    | Waiting                                   // for a resource, its request having been sent
    | Using(lock: Lock, iteration: Iteration)   // an activity runs on the resource
    | Detached(lock: Lock)                      // between two runs of the chain
    | Releasing                                 // the release has been sent
    | Closed
    | Terminated                                // ended from outside, by an operator or a timeout

  datatype Signal = AcquireSent | ReleaseSent(lock: Lock)

  /** sent and taken record what the chain has signalled and which lock it obtained. */
  datatype User = User(input: Input, phase: Phase, acquired: seq<Lock>, sent: seq<Signal>, taken: Option<Lock>)

  function IterationName(i: Iteration): string {
    match i
    case First => "first"
    case Second => "second"
  }

  /** A first run asks the pool for a resource. */
  function Begin(input: Input): User
    requires input.reattach.None?
  {
    User(input, Waiting, [], [AcquireSent], None)
  }

  /** The assignment handler of the client. */
  function Receive(u: User, lock: Lock): User {
    u.(acquired := u.acquired + [lock])
  }

  /** The wait has ended: the first resource received is taken. */
  function Take(u: User): User
    requires u.phase.Waiting? && u.acquired != []
  {
    u.(phase := Using(u.acquired[0], First), acquired := u.acquired[1..], taken := Some(u.acquired[0]))
  }

  function GiveUp(u: User): User {
    u.(phase := Closed, acquired := [])
  }

  /** The run is ended from outside: its finally block does not run. */
  function Terminate(u: User): User {
    u.(phase := Terminated, acquired := [])
  }

  predicate Ended(u: User) {
    u.phase.Closed? || u.phase.Terminated?
  }

  /** The finally block: the release is signalled unless the lock has been detached. */
  function Unlock(u: User): User
    requires u.phase.Using?
  {
    u.(phase := Releasing, sent := u.sent + [ReleaseSent(u.phase.lock)])
  }

  function Detach(u: User): User
    requires u.phase.Using?
  {
    u.(phase := Detached(u.phase.lock),
       input := Input(u.input.failAfter, false, Some(u.phase.lock)),
       acquired := [])
  }

  function ActivityDone(u: User): User
    requires u.phase.Using?
  {
    if u.input.failAfter == Some(IterationName(u.phase.iteration)) then Unlock(u)
    else if u.phase.iteration.First? then u.(phase := Using(u.phase.lock, Second))
    else if u.input.continueAsNew then Detach(u)
    else Unlock(u)
  }

  /** The next run of the chain, with a client of its own, reattaches the lock. */
  function Resume(u: User): User
    requires u.phase.Detached? && u.input.reattach.Some?
  {
    u.(phase := Using(u.input.reattach.value, First), acquired := [])
  }

  function Held(u: User): seq<Lock> {
    match u.phase
    case Using(lock, _) => [lock]
    case Detached(lock) => [lock]
    case _ => []
  }

  /** Every lock that this user could still use or hand on. */
  function Locks(u: User): seq<Lock> {
    Held(u) + u.acquired
  }

  // ---------- One acquire, one release ----------

  /** What the chain has sent so far, by phase. */
  predicate Orderly(u: User) {
    match u.phase
    case Waiting => u.taken.None? && u.sent == [AcquireSent]
    case Using(lock, _) => u.taken == Some(lock) && u.sent == [AcquireSent]
    case Detached(lock) => u.taken == Some(lock) && u.sent == [AcquireSent] && u.input.reattach == Some(lock)
    case Releasing => u.taken.Some? && u.sent == [AcquireSent, ReleaseSent(u.taken.value)]
    case Closed =>
      && u.acquired == []
      && u.sent == if u.taken.None? then [AcquireSent] else [AcquireSent, ReleaseSent(u.taken.value)]
    case Terminated =>
      && u.acquired == []
      && (u.sent == [AcquireSent] || (u.taken.Some? && u.sent == [AcquireSent, ReleaseSent(u.taken.value)]))
  }

  datatype UserEvent =
    | Received(lock: Lock)
    | Took
    | TimedOut
    | Done
    | Failed
    | Resumed
    | ReleaseAccepted
    | Killed               // terminated by an operator, or by a workflow timeout

  predicate CanHappen(u: User, e: UserEvent) {
    match e
    case Received(_) => u.phase.Waiting? || u.phase.Using? || u.phase.Releasing?
    case Took => u.phase.Waiting? && u.acquired != []
    case TimedOut => u.phase.Waiting?
    case Done => u.phase.Using?
    case Failed => u.phase.Using?
    case Resumed => u.phase.Detached? && u.input.reattach.Some?
    case ReleaseAccepted => u.phase.Releasing?
    case Killed => !Ended(u)
  }

  function Happen(u: User, e: UserEvent): User
    requires CanHappen(u, e)
  {
    match e
    case Received(lock) => Receive(u, lock)
    case Took => Take(u)
    case TimedOut => GiveUp(u)
    case Done => ActivityDone(u)
    case Failed => Unlock(u)
    case Resumed => Resume(u)
    case ReleaseAccepted => GiveUp(u)
    case Killed => Terminate(u)
  }

  predicate Life(u: User, es: seq<UserEvent>)
    decreases |es|
  {
    es == [] || (CanHappen(u, es[0]) && Life(Happen(u, es[0]), es[1..]))
  }

  function After(u: User, es: seq<UserEvent>): User
    requires Life(u, es)
    decreases |es|
  {
    if es == [] then u else After(Happen(u, es[0]), es[1..])
  }

  lemma StepKeepsOrder(u: User, e: UserEvent)
    requires Orderly(u) && CanHappen(u, e)
    ensures Orderly(Happen(u, e))
    ensures u.taken.Some? ==> Happen(u, e).taken == u.taken
  {
  }

  lemma {:induction false} LifeKeepsOrder(u: User, es: seq<UserEvent>)
    requires Orderly(u) && Life(u, es)
    ensures Orderly(After(u, es))
    decreases |es|
  {
    if es != [] {
      StepKeepsOrder(u, es[0]);
      LifeKeepsOrder(Happen(u, es[0]), es[1..]);
    }
  }

  /**
   Whether a chain completes, fails or hands its lock to its next run, it sends one acquire and,
   once it has a lock, one release of that lock; a chain that is terminated sends no more than that.
   */
  lemma OneAcquireOneRelease(input: Input, es: seq<UserEvent>)
    requires input.reattach.None? && Life(Begin(input), es)
    ensures var u := After(Begin(input), es);
            && (u.phase.Closed? ==>
                  u.sent == if u.taken.None? then [AcquireSent] else [AcquireSent, ReleaseSent(u.taken.value)])
            && (u.phase.Terminated? ==>
                  u.sent == [AcquireSent] || (u.taken.Some? && u.sent == [AcquireSent, ReleaseSent(u.taken.value)]))
            && (u.phase.Using? || u.phase.Detached? ==> u.sent == [AcquireSent] && u.taken == Some(u.phase.lock))
  {
    LifeKeepsOrder(Begin(input), es);
  }

  /** The lock a chain obtains stays the same until the end of the chain. */
  lemma {:induction false} TakenOnce(u: User, es: seq<UserEvent>)
    requires Orderly(u) && u.taken.Some? && Life(u, es)
    ensures After(u, es).taken == u.taken
    decreases |es|
  {
    if es != [] {
      StepKeepsOrder(u, es[0]);
      TakenOnce(Happen(u, es[0]), es[1..]);
    }
  }

  // ---------- A chain is short ----------

  /** How many more steps of its own a chain can take. */
  function Fuel(u: User): nat {
    match u.phase
    case Waiting => 7
    case Using(_, First) => if u.input.continueAsNew then 6 else 3
    case Using(_, Second) => if u.input.continueAsNew then 5 else 2
    case Detached(_) => if u.input.continueAsNew then 7 else 4
    case Releasing => 1
    case Closed => 0
    case Terminated => 0
  }

  function OwnSteps(es: seq<UserEvent>): nat {
    if es == [] then 0 else (if es[0].Received? then 0 else 1) + OwnSteps(es[1..])
  }

  /** A chain ends after at most seven steps of its own: two runs, of two activities each. */
  lemma {:induction false} ChainEnds(u: User, es: seq<UserEvent>)
    requires Life(u, es)
    ensures OwnSteps(es) + Fuel(After(u, es)) <= Fuel(u) <= 7
    decreases |es|
  {
    if es != [] {
      ChainEnds(Happen(u, es[0]), es[1..]);
    }
  }

  /** A chain that has not ended can go on by itself, and be run to its regular end. */
  lemma {:induction false} ChainCanEnd(u: User) returns (es: seq<UserEvent>)
    requires Orderly(u) && !Ended(u)
    ensures Life(u, es) && After(u, es).phase.Closed? && OwnSteps(es) == |es|
    ensures Killed !in es
    decreases Fuel(u)
  {
    var e :=
      match u.phase
      case Waiting => if u.acquired == [] then TimedOut else Took
      case Using(_, _) => Done
      case Detached(_) => Resumed
      case _ => ReleaseAccepted;
    StepKeepsOrder(u, e);
    es := [];
    if !Ended(Happen(u, e)) {
      es := ChainCanEnd(Happen(u, e));
    }
    es := [e] + es;
  }

  /** The locks received during some steps, in order. */
  function LocksReceived(es: seq<UserEvent>): seq<Lock> {
    if es == [] then [] else (if es[0].Received? then [es[0].lock] else []) + LocksReceived(es[1..])
  }

  /** While a chain waits, what it receives is kept in order. */
  lemma {:induction false} ReceivedInOrder(u: User, es: seq<UserEvent>)
    requires Life(u, es) && After(u, es).phase.Waiting?
    ensures After(u, es).acquired == u.acquired + LocksReceived(es)
    decreases |es|
  {
    if es != [] {
      if !Happen(u, es[0]).phase.Waiting? {
        WaitsNoMore(Happen(u, es[0]), es[1..]);
      }
      ReceivedInOrder(Happen(u, es[0]), es[1..]);
      var first := if es[0].Received? then [es[0].lock] else [];
      assert u.acquired + (first + LocksReceived(es[1..])) == u.acquired + first + LocksReceived(es[1..]);
    }
  }

  lemma {:induction false} WaitsNoMore(u: User, es: seq<UserEvent>)
    requires !u.phase.Waiting? && Life(u, es)
    ensures !After(u, es).phase.Waiting?
    decreases |es|
  {
    if es != [] {
      WaitsNoMore(Happen(u, es[0]), es[1..]);
    }
  }

  /** A signal reaches any run that has not ended, and a run can be terminated at any time. */
  lemma AlwaysOpen(u: User, lock: Lock)
    requires !Ended(u)
    ensures CanHappen(u, Received(lock)) <==> !u.phase.Detached?
    ensures CanHappen(u, Killed) && Ended(Happen(u, Killed)) && Locks(Happen(u, Killed)) == []
    ensures Happen(u, Killed).sent == u.sent
  {
  }

  /** The wait ends with the first lock received; the run then begins its first activity on it. */
  lemma TakesFirst(u: User)
    requires Orderly(u) && u.phase.Waiting?
    ensures CanHappen(u, Took) <==> u.acquired != []
    ensures CanHappen(u, Took) ==>
              var u' := Happen(u, Took);
              && u'.phase == Using(u.acquired[0], First) && Locks(u') == u.acquired && u'.sent == u.sent
    ensures u.acquired == [] ==>
              CanHappen(u, TimedOut) && Ended(Happen(u, TimedOut)) && Happen(u, TimedOut).sent == u.sent
  {
  }

  /**
   A run in which no activity fails: it releases after the iteration it was told to fail after,
   and otherwise, after both, either releases or hands its lock to a run that does not hand it on.
   */
  lemma RunsBothActivities(u: User)
    requires Orderly(u) && u.phase.Using? && u.phase.iteration.First?
    ensures var l := u.phase.lock; var u1 := Happen(u, Done);
            if u.input.failAfter == Some("first") then u1.phase.Releasing? && u1.sent == [AcquireSent, ReleaseSent(l)]
            else
              && u1.phase == Using(l, Second)
              && var u2 := Happen(u1, Done);
                 if u.input.failAfter == Some("second") || !u.input.continueAsNew
                 then u2.phase.Releasing? && u2.sent == [AcquireSent, ReleaseSent(l)]
                 else
                   && u2.phase == Detached(l) && u2.sent == [AcquireSent] && u2.acquired == []
                   && CanHappen(u2, Resumed)
                   && Happen(u2, Resumed).phase == Using(l, First)
                   && !Happen(u2, Resumed).input.continueAsNew
                   && Happen(u2, Resumed).input.failAfter == u.input.failAfter
  {
  }
}
