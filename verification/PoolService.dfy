/**
 Service properties of the pool over whole runs: requests are served in order and none is
 lost, no request waits while a resource is free, and exactly when a release fails to free.
 */
module PoolService {
  import opened Wrappers
  import opened ResourcePool
  import opened ResourceUser
  import opened PoolSystem

  // ---------- First in, first out ----------

  function Names(ws: seq<Request>): seq<WorkflowId> {
    seq(|ws|, i requires 0 <= i < |ws| => ws[i].workflow)
  }

  /** The acquire signals that the pool receives during a run, in order. */
  function Received(es: seq<Event>): seq<WorkflowId> {
    if es == [] then []
    else (if es[0].DeliverAcquire? then [es[0].user] else []) + Received(es[1..])
  }

  /** The requests taken off the queue for a grant attempt during a run, whatever becomes of the attempt. */
  function Attempted(s: System, es: seq<Event>): seq<WorkflowId>
    requires Run(s, es)
    decreases |es|
  {
    if es == [] then []
    else
      (if es[0].Assign? then [Apply(s, es[0]).pool.inFlight.value.workflow] else [])
      + Attempted(Apply(s, es[0]), es[1..])
  }

  lemma QueuePop(p: Pool, k: Key)
    requires Consistent(p) && p.inFlight.None? && CanAssign(p) && k !in p.keys
    ensures [BeginAssign(p, k).inFlight.value.workflow] + Names(BeginAssign(p, k).waiters) == Names(p.waiters)
  {
    BeginAssignEffect(p, k);
  }

  lemma QueuePush(p: Pool, u: WorkflowId)
    ensures Names(Acquire(p, u).waiters) == Names(p.waiters) + [u]
  {
  }

  lemma QueueStep(s: System, e: Event)
    requires Invariant(s) && Enabled(s, e)
    ensures var served := if e.Assign? then [Apply(s, e).pool.inFlight.value.workflow] else [];
            var received := if e.DeliverAcquire? then [e.user] else [];
            served + Names(Apply(s, e).pool.waiters) == Names(s.pool.waiters) + received
  {
    match e
    case Assign(k) => QueuePop(s.pool, k);
    case DeliverAcquire(u) => QueuePush(s.pool, u);
    case ResourcesAdded(rs) => AddResourcesEffect(s.pool, rs);
    case _ => SameWaiters(s, e);
  }

  lemma SameWaiters(s: System, e: Event)
    requires Enabled(s, e) && !e.Assign? && !e.DeliverAcquire? && !e.ResourcesAdded?
    ensures Apply(s, e).pool.waiters == s.pool.waiters
  {
  }

  lemma {:induction false} QueueRun(s: System, es: seq<Event>)
    requires Invariant(s) && Run(s, es)
    ensures Attempted(s, es) + Names(Exec(s, es).pool.waiters) == Names(s.pool.waiters) + Received(es)
    decreases |es|
  {
    if es != [] {
      var s' := Apply(s, es[0]);
      QueueStep(s, es[0]);
      StepKeepsInvariant(s, es[0]);
      QueueRun(s', es[1..]);
      var served := if es[0].Assign? then [s'.pool.inFlight.value.workflow] else [];
      var received := if es[0].DeliverAcquire? then [es[0].user] else [];
      Splice(served, Names(s'.pool.waiters), Names(s.pool.waiters), received,
             Attempted(s', es[1..]), Names(Exec(s', es[1..]).pool.waiters), Received(es[1..]));
    }
  }

  lemma Splice<T>(served: seq<T>, middle: seq<T>, start: seq<T>, received: seq<T>, servedLater: seq<T>,
        end: seq<T>, receivedLater: seq<T>)
    requires served + middle == start + received && servedLater + end == middle + receivedLater
    ensures (served + servedLater) + end == start + (received + receivedLater)
  {
    assert (served + servedLater) + end == served + (servedLater + end);
    assert served + (middle + receivedLater) == (served + middle) + receivedLater;
    assert (start + received) + receivedLater == start + (received + receivedLater);
  }

  /** Requests are attempted in the order they arrived and none is lost, across any number of restarts. */
  lemma FirstInFirstOut(resources: seq<Resource>, waiting: seq<WorkflowId>, es: seq<Event>)
    requires Run(Initial(resources, waiting), es)
    ensures var s := Initial(resources, waiting);
            Attempted(s, es) + Names(Exec(s, es).pool.waiters) == waiting + Received(es)
  {
    var s := Initial(resources, waiting);
    InitialInvariant(resources, waiting);
    NewPoolConsistent(resources, waiting);
    QueueRun(s, es);
    assert Names(s.pool.waiters) == waiting;
  }

  /** The chains begun during a run, in order. */
  function Begun(es: seq<Event>): seq<WorkflowId> {
    if es == [] then []
    else (if es[0].StartUser? then [es[0].user] else []) + Begun(es[1..])
  }

  lemma Balance<T>(received: multiset<T>, receivedLater: multiset<T>, end: multiset<T>, middle: multiset<T>,
        start: multiset<T>, begun: multiset<T>, begunLater: multiset<T>)
    requires received + middle == start + begun && receivedLater + end == middle + begunLater
    ensures (received + receivedLater) + end == start + (begun + begunLater)
  {
    assert (received + receivedLater) + end == received + (receivedLater + end);
    assert received + (middle + begunLater) == (received + middle) + begunLater;
    assert (start + begun) + begunLater == start + (begun + begunLater);
  }

  lemma RequestsStep(s: System, e: Event)
    requires Enabled(s, e)
    ensures var received := if e.DeliverAcquire? then [e.user] else [];
            var begun := if e.StartUser? then [e.user] else [];
            multiset(received) + Apply(s, e).acquires == s.acquires + multiset(begun)
  {
    match e
    case StartUser(u, _) =>
    case DeliverAcquire(u) =>
    case _ => assert Apply(s, e).acquires == s.acquires;
  }

  lemma {:induction false} RequestsRun(s: System, es: seq<Event>)
    requires Run(s, es)
    ensures multiset(Received(es)) + Exec(s, es).acquires == s.acquires + multiset(Begun(es))
    decreases |es|
  {
    if es != [] {
      RequestsRun(Apply(s, es[0]), es[1..]);
      var received := if es[0].DeliverAcquire? then [es[0].user] else [];
      var begun := if es[0].StartUser? then [es[0].user] else [];
      RequestsStep(s, es[0]);
      assert Received(es) == received + Received(es[1..]);
      assert Begun(es) == begun + Begun(es[1..]);
      Balance(multiset(received), multiset(Received(es[1..])), Exec(s, es).acquires, Apply(s, es[0]).acquires,
              s.acquires, multiset(begun), multiset(Begun(es[1..])));
    }
  }

  /** The acquire signals received and those in transit are one for each chain begun. */
  lemma RequestsConserved(resources: seq<Resource>, waiting: seq<WorkflowId>, es: seq<Event>)
    requires Run(Initial(resources, waiting), es)
    ensures multiset(Received(es)) + Exec(Initial(resources, waiting), es).acquires == multiset(Begun(es))
  {
    RequestsRun(Initial(resources, waiting), es);
  }

  /**
   In every reachable state each user's chain has signalled as it should: one acquire, and one
   release of the lock it took.
   */
  lemma ChainsOrderly(resources: seq<Resource>, waiting: seq<WorkflowId>, es: seq<Event>)
    requires Run(Initial(resources, waiting), es)
    ensures var s := Exec(Initial(resources, waiting), es);
            forall u | u in s.users :: Orderly(s.users[u])
  {
    InitialInvariant(resources, waiting);
    RunKeepsInvariant(Initial(resources, waiting), es);
  }

  // ---------- Work conservation ----------

  /** No assignment is under way, and none can be started. */
  ghost predicate Parked(s: System) {
    s.pool.inFlight.None? && forall k :: !Enabled(s, Assign(k))
  }

  /**
   When the loop is parked, which is when it may continue as new, no request waits while a
   resource is free; and until it receives further requests it makes at most one attempt for each
   request already waiting.
   */
  lemma WorkConserving(resources: seq<Resource>, waiting: seq<WorkflowId>, es: seq<Event>, more: seq<Event>)
    requires Run(Initial(resources, waiting), es) && Run(Exec(Initial(resources, waiting), es), more)
    ensures var s := Exec(Initial(resources, waiting), es);
            && (Parked(s) <==> Enabled(s, ContinueAsNew))
            && (Parked(s) ==> s.pool.waiters == [] || forall r :: !IsFree(s.pool, r))
            && |Attempted(s, more)| <= |s.pool.waiters| + |Received(more)|
  {
    var s := Exec(Initial(resources, waiting), es);
    InitialInvariant(resources, waiting);
    RunKeepsInvariant(Initial(resources, waiting), es);
    NothingIdle(s.pool);
    QueueRun(s, more);
    assert |Attempted(s, more)| + |Names(Exec(s, more).pool.waiters)| == |s.pool.waiters| + |Received(more)| by {
      assert |Attempted(s, more) + Names(Exec(s, more).pool.waiters)| == |Names(s.pool.waiters) + Received(more)|;
    }
    var k := FreshKey(s.issued);
    assert Parked(s) ==> !Enabled(s, Assign(k));
  }

  /** There is always a key that has not been drawn. */
  lemma FreshKey(issued: set<Key>) returns (k: Key)
    ensures k !in issued
  {
    var n := LongerThanAll(issued);
    k := seq(n, i => 'x');
    assert |k| == n;
  }

  lemma {:induction false} LongerThanAll(issued: set<Key>) returns (n: nat)
    ensures forall k | k in issued :: |k| < n
    decreases |issued|
  {
    if issued == {} {
      n := 0;
    } else {
      var k :| k in issued;
      n := LongerThanAll(issued - {k});
      n := n + |k| + 1;
      forall k' | k' in issued
        ensures |k'| < n
      {
        assert k' == k || k' in issued - {k};
      }
    }
  }

  // ---------- Releases that free nothing ----------

  /** r is still given to key k, but no live grant for it is left anywhere. */
  ghost predicate Leaked(s: System, r: Resource, k: Key) {
    && OwnedUnder(s.pool, r, k)
    && (forall place :: !IsAt(s, Lock(r, k), place))
  }

  /**
   A release frees its resource exactly when the pool has registered the grant by then; otherwise
   the resource leaks.
   */
  lemma ReleaseFreesIffRegistered(s: System, k: Key)
    requires Invariant(s) && Enabled(s, DeliverRelease(k))
    ensures var s' := Apply(s, DeliverRelease(k)); var r := s.releases[k];
            && (k in s.pool.keys <==> Owner(s'.pool, r).None?)
            && (k in s.pool.keys <==>
                  IsFree(s'.pool, r) && s'.pool.inFlight == s.pool.inFlight && !OwnedUnder(s'.pool, r, k))
            && (k !in s.pool.keys <==> s.pool.inFlight.Some? && s.pool.inFlight.value.key == k)
            && (k !in s.pool.keys ==> s'.pool == s.pool && Leaked(s', r, k))
  {
    var s' := Apply(s, DeliverRelease(k));
    var r := s.releases[k];
    assert OwnedUnder(s.pool, r, k);
    if IsHeld(s.pool, r) {
      assert KeyRegistered(s.pool, r);
    }
    if k !in s.pool.keys {
      forall place
        ensures !IsAt(s', Lock(r, k), place)
      {
      }
    }
  }

  lemma LeakStays(s: System, e: Event, r: Resource, k: Key)
    requires Invariant(s) && Enabled(s, e) && Leaked(s, r, k)
    ensures Leaked(Apply(s, e), r, k)
  {
    assert !IsAt(s, Lock(r, k), InTransit) && !IsAt(s, Lock(r, k), ReleaseInTransit);
    LeakedOwnerStays(s, e, r, k);
    OwnerKeyKnown(s, r);
    forall place
      ensures !IsAt(Apply(s, e), Lock(r, k), place)
    {
      if IsAt(Apply(s, e), Lock(r, k), place) {
        var origin := Origin(s, e, Lock(r, k), place);
      }
    }
  }

  lemma LeakedOwnerStays(s: System, e: Event, r: Resource, k: Key)
    requires Invariant(s) && Enabled(s, e) && OwnedUnder(s.pool, r, k)
    requires !IsAt(s, Lock(r, k), InTransit) && !IsAt(s, Lock(r, k), ReleaseInTransit)
    ensures OwnedUnder(Apply(s, e).pool, r, k)
  {
    match e
    case DeliverAcquire(u) => AcquireEffect(s.pool, u);
    case DeliverRelease(k') =>
      assert OwnedUnder(s.pool, s.releases[k'], k');
      if k' == k {
        OneResourcePerKey(s.pool, r, s.releases[k']);
      }
      if r in s.pool.holders {
        ReleaseEffect(s.pool, k', r);
      }
      if IsHeld(s.pool, r) {
        assert KeyRegistered(s.pool, r);
      }
    case ResourcesAdded(rs) => AddResourcesEffect(s.pool, rs);
    case Assign(k') => BeginAssignEffect(s.pool, k');
    case AssignAccepted => RegisterEffect(s.pool);
    case AssignNotFound =>
      DropEffect(s.pool);
      var k' := s.pool.inFlight.value.key;
      assert OwnedBy(s.pool, s.grants[k'].1, s.grants[k'].0, k');
      if s.pool.inFlight.value.resource == r {
        OneResourcePerKey(s.pool, r, s.grants[k'].1);
      }
    case ContinueAsNew => RestartIsIdentity(s.pool);
    case _ =>
  }

  lemma OriginInSlice(s: System, s': System, u: WorkflowId, after: User, from: nat, to: nat, released: map<Key,
        Resource>, l: Lock, place: Place)
    returns (origin: Place)
    requires Shrinks(s, s', u, after, from, to, released) && IsAt(s', l, place)
    ensures IsAt(s, l, origin)
  {
    origin := place;
    if place.At? && place.user == u {
      origin := At(u, from + place.slot);
    } else if place.ReleaseInTransit? && l.key in released {
      origin := At(u, 0);
    }
  }

  lemma OriginAtUser(s: System, u: WorkflowId, step: UserEvent, l: Lock, place: Place) returns (origin: Place)
    requires Invariant(s) && Enabled(s, UserStep(u, step)) && IsAt(Apply(s, UserStep(u, step)), l, place)
    ensures IsAt(s, l, origin)
  {
    var after := Happen(s.users[u], step);
    var from, to := UserLocks(s.users[u], step);
    origin := OriginInSlice(s, Apply(s, UserStep(u, step)), u, after, from, to, NewRelease(s.users[u], after), l,
                            place);
  }

  lemma OriginOfDelivery(s: System, k: Key, l: Lock, place: Place) returns (origin: Place)
    requires Invariant(s) && Enabled(s, DeliverGrant(k)) && IsAt(Apply(s, DeliverGrant(k)), l, place)
    ensures IsAt(s, l, origin)
  {
    var (u, r) := s.grants[k];
    origin := OriginOfReceipt(s, Apply(s, DeliverGrant(k)), u, Lock(r, k), l, place);
  }

  lemma OriginOfReceipt(s: System, s': System, u: WorkflowId, received: Lock, l: Lock, place: Place)
    returns (origin: Place)
    requires Receives(s, s', u, received) && IsAt(s', l, place)
    ensures IsAt(s, l, origin)
  {
    assert Locks(s'.users[u]) == Locks(s.users[u]) + [received];
    origin := if place.At? && place.user == u && place.slot == |Locks(s.users[u])| then InTransit else place;
  }

  /** A live grant was live before the step, unless the step is the assignment that creates it. */
  lemma Origin(s: System, e: Event, l: Lock, place: Place) returns (origin: Place)
    requires Invariant(s) && Enabled(s, e) && IsAt(Apply(s, e), l, place)
    requires !(e.Assign? && e.key == l.key)
    ensures IsAt(s, l, origin)
  {
    origin := place;
    match e
    case UserStep(u, step) => origin := OriginAtUser(s, u, step, l, place);
    case DeliverGrant(k) => origin := OriginOfDelivery(s, k, l, place);
    case StartUser(u, input) => assert Locks(Begin(input)) == [];
    case _ =>
  }

  /** A user at work has the live grant of its resource. */
  lemma UsingIsLive(s: System, u: WorkflowId, r: Resource)
    requires Invariant(s) && IsUsing(s, u, r)
    ensures Owner(s.pool, r).Some? && IsAt(s, Lock(r, Owner(s.pool, r).value.1), At(u, 0))
  {
    var l := s.users[u].phase.lock;
    assert Locks(s.users[u])[0] == l && OwnedBy(s.pool, l.resource, u, l.key);
  }

  /** A leaked resource stays held by nobody for ever: it is never free again, and no user can use it. */
  lemma {:induction false} LeakIsPermanent(s: System, es: seq<Event>, r: Resource, k: Key)
    requires Invariant(s) && Run(s, es) && Leaked(s, r, k)
    ensures Leaked(Exec(s, es), r, k)
    ensures Owner(Exec(s, es).pool, r) != None && forall u :: !IsUsing(Exec(s, es), u, r)
    decreases |es|
  {
    if es == [] {
      forall u
        ensures !IsUsing(s, u, r)
      {
        if IsUsing(s, u, r) {
          UsingIsLive(s, u, r);
        }
      }
    } else {
      LeakStays(s, es[0], r, k);
      StepKeepsInvariant(s, es[0]);
      LeakIsPermanent(Apply(s, es[0]), es[1..], r, k);
    }
  }

  lemma RunOne(s: System, e: Event, es: seq<Event>)
    requires Enabled(s, e) && Run(Apply(s, e), es)
    ensures Run(s, [e] + es) && Exec(s, [e] + es) == Exec(Apply(s, e), es)
  {
    assert ([e] + es)[1..] == es;
  }

  /** The locks that a user drops with this step: all when it is terminated, else those it has not used. */
  predicate Drops(u: User, step: UserEvent, l: Lock)
    requires CanHappen(u, step)
  {
    if step.Killed? then l in Locks(u) else l in u.acquired && Happen(u, step).acquired == [] && !step.Took?
  }

  /** The steps that forget a live grant without giving its resource back. */
  predicate Forgets(s: System, e: Event, l: Lock)
    requires Enabled(s, e)
  {
    match e
    case LoseGrant(k) => k == l.key
    case DeliverRelease(k) => k == l.key && k !in s.pool.keys
    case UserStep(u, step) => Drops(s.users[u], step, l)
    case _ => false
  }

  lemma UserForgets(u: User, step: UserEvent, l: Lock)
    requires Orderly(u) && DistinctKeys(Locks(u)) && CanHappen(u, step) && !step.Received? && Drops(u, step, l)
    ensures l in Locks(u)
    ensures NewRelease(u, Happen(u, step)) == map[]
    ensures forall i | 0 <= i < |Locks(Happen(u, step))| :: Locks(Happen(u, step))[i] != l
  {
    if step.Killed? {
      assert Locks(Happen(u, step)) == [];
    } else {
      var i :| 0 <= i < |u.acquired| && u.acquired[i] == l;
      assert Locks(u)[|Held(u)| + i] == l;
      if Held(u) != [] {
        assert Locks(u)[0] == Held(u)[0];
      }
    }
  }

  lemma ForgottenByUser(s: System, u: WorkflowId, step: UserEvent, l: Lock, place: Place)
    requires Invariant(s) && Enabled(s, UserStep(u, step)) && Forgets(s, UserStep(u, step), l)
    ensures !IsAt(Apply(s, UserStep(u, step)), l, place)
  {
    InvariantExcludes(s);
    UserForgets(s.users[u], step, l);
    var i :| 0 <= i < |Locks(s.users[u])| && Locks(s.users[u])[i] == l;
    assert IsAt(s, l, At(u, i));
    if !(place.At? && place.user == u) {
      OtherPlaces(s, u, step, l, place);
    }
  }

  lemma OtherPlaces(s: System, u: WorkflowId, step: UserEvent, l: Lock, place: Place)
    requires Enabled(s, UserStep(u, step)) && NewRelease(s.users[u], Happen(s.users[u], step)) == map[]
    requires place.At? ==> place.user != u
    ensures IsAt(Apply(s, UserStep(u, step)), l, place) <==> IsAt(s, l, place)
  {
  }

  lemma ForgottenIsLeaked(s: System, e: Event, l: Lock, place: Place)
    requires Invariant(s) && Enabled(s, e) && OwnedUnder(s.pool, l.resource, l.key) && IsAt(s, l, place)
    requires Forgets(s, e, l)
    ensures Leaked(Apply(s, e), l.resource, l.key)
  {
    var s' := Apply(s, e);
    InvariantExcludes(s);
    match e
    case LoseGrant(k) =>
      assert OwnedBy(s.pool, s.grants[k].1, s.grants[k].0, k);
      OneResourcePerKey(s.pool, l.resource, s.grants[k].1);
      assert IsAt(s, l, InTransit);
    case DeliverRelease(k) =>
      assert OwnedUnder(s.pool, s.releases[k], k);
      OneResourcePerKey(s.pool, l.resource, s.releases[k]);
      assert IsAt(s, l, ReleaseInTransit);
    case UserStep(u, step) =>
      forall place'
        ensures !IsAt(s', l, place')
      {
        ForgottenByUser(s, u, step, l, place');
      }
  }

  lemma HeldRemembered(u: User, step: UserEvent) returns (slot': Option<nat>)
    requires Orderly(u) && CanHappen(u, step) && !step.Received? && !step.Killed? && Held(u) != []
    ensures match slot'
            case Some(i) => i < |Locks(Happen(u, step))| && Locks(Happen(u, step))[i] == Held(u)[0]
            case None => NewRelease(u, Happen(u, step)) == map[Held(u)[0].key := Held(u)[0].resource]
  {
    slot' := if Happen(u, step).phase.Releasing? then None else Some(0);
  }

  lemma ReceivedRemembered(u: User, step: UserEvent, i: nat) returns (i': nat)
    requires Orderly(u) && CanHappen(u, step) && !step.Received? && i < |u.acquired|
    requires !Drops(u, step, u.acquired[i])
    ensures i' < |Locks(Happen(u, step))| && Locks(Happen(u, step))[i'] == u.acquired[i]
  {
    var after := Happen(u, step);
    if step.Took? {
      i' := i;
      assert Locks(after) == u.acquired;
    } else {
      i' := |Held(after)| + i;
      assert after.acquired == u.acquired;
    }
  }

  /** After a user's step a lock it does not forget is still among its locks, or its release is sent. */
  lemma UserRemembers(u: User, step: UserEvent, slot: nat) returns (slot': Option<nat>)
    requires Orderly(u) && CanHappen(u, step) && !step.Received? && slot < |Locks(u)|
    requires !Drops(u, step, Locks(u)[slot])
    ensures match slot'
            case Some(i) => i < |Locks(Happen(u, step))| && Locks(Happen(u, step))[i] == Locks(u)[slot]
            case None => NewRelease(u, Happen(u, step)) == map[Locks(u)[slot].key := Locks(u)[slot].resource]
  {
    if slot >= |Held(u)| {
      assert u.acquired[slot - |Held(u)|] == Locks(u)[slot];
      var i := ReceivedRemembered(u, step, slot - |Held(u)|);
      slot' := Some(i);
    } else {
      slot' := HeldRemembered(u, step);
    }
  }

  lemma RememberedByUser(s: System, u: WorkflowId, step: UserEvent, l: Lock, place: Place) returns (place': Place)
    requires Invariant(s) && Enabled(s, UserStep(u, step)) && IsAt(s, l, place)
    requires !Forgets(s, UserStep(u, step), l)
    ensures IsAt(Apply(s, UserStep(u, step)), l, place')
  {
    var s' := Apply(s, UserStep(u, step));
    place' := place;
    if place.At? && place.user == u {
      var slot' := UserRemembers(s.users[u], step, place.slot);
      place' := if slot'.Some? then At(u, slot'.value) else ReleaseInTransit;
    } else if place.ReleaseInTransit? {
      var from, to := UserLocks(s.users[u], step);
      assert Locks(s.users[u]) != [] ==> Locks(s.users[u])[0].key != l.key;
    }
  }

  lemma RememberedByDelivery(s: System, k: Key, l: Lock, place: Place) returns (place': Place)
    requires Invariant(s) && Enabled(s, DeliverGrant(k)) && IsAt(s, l, place)
    ensures IsAt(Apply(s, DeliverGrant(k)), l, place')
  {
    var (u, r) := s.grants[k];
    place' := RememberedByReceipt(s, Apply(s, DeliverGrant(k)), u, Lock(r, k), l, place);
  }

  lemma RememberedByReceipt(s: System, s': System, u: WorkflowId, received: Lock, l: Lock, place: Place)
    returns (place': Place)
    requires Receives(s, s', u, received) && IsAt(s, l, place)
    ensures IsAt(s', l, place')
  {
    assert Locks(s'.users[u]) == Locks(s.users[u]) + [received];
    place' := if place.InTransit? && received.key == l.key then At(u, |Locks(s.users[u])|) else place;
  }

  lemma RememberedByRelease(s: System, k: Key, l: Lock, place: Place)
    requires Invariant(s) && Enabled(s, DeliverRelease(k)) && OwnedUnder(s.pool, l.resource, l.key) && IsAt(s, l, place)
    requires !Forgets(s, DeliverRelease(k), l) && OwnedUnder(Apply(s, DeliverRelease(k)).pool, l.resource, l.key)
    ensures IsAt(Apply(s, DeliverRelease(k)), l, place)
  {
    ReleaseFreesIffRegistered(s, k);
    if k == l.key {
      assert OwnedUnder(s.pool, s.releases[k], k);
      OneResourcePerKey(s.pool, l.resource, s.releases[k]);
    }
  }

  lemma RememberedByNotFound(s: System, l: Lock, place: Place)
    requires Invariant(s) && Enabled(s, AssignNotFound) && IsAt(s, l, place)
    requires OwnedUnder(Apply(s, AssignNotFound).pool, l.resource, l.key)
    ensures IsAt(Apply(s, AssignNotFound), l, place)
  {
    DropEffect(s.pool);
  }

  /** Where a live grant is after a step that neither forgets it nor gives its resource back. */
  lemma Remembered(s: System, e: Event, l: Lock, place: Place) returns (place': Place)
    requires Invariant(s) && Enabled(s, e) && OwnedUnder(s.pool, l.resource, l.key) && IsAt(s, l, place)
    requires !Forgets(s, e, l) && OwnedUnder(Apply(s, e).pool, l.resource, l.key)
    ensures IsAt(Apply(s, e), l, place')
  {
    place' := place;
    match e
    case UserStep(u, step) => place' := RememberedByUser(s, u, step, l, place);
    case DeliverGrant(k) => place' := RememberedByDelivery(s, k, l, place);
    case DeliverRelease(k) => RememberedByRelease(s, k, l, place);
    case AssignNotFound => RememberedByNotFound(s, l, place);
    case _ => RememberedElsewhere(s, e, l, place);
  }

  lemma SamePlace(s: System, s': System, l: Lock, place: Place)
    requires IsAt(s, l, place)
    requires s'.releases == s.releases
    requires l.key in s.grants ==> l.key in s'.grants && s'.grants[l.key] == s.grants[l.key]
    requires place.At? ==> place.user in s'.users && Locks(s'.users[place.user]) == Locks(s.users[place.user])
    ensures IsAt(s', l, place)
  {
  }

  /** The other steps move no lock and no release, and take no grant away. */
  lemma RememberedElsewhere(s: System, e: Event, l: Lock, place: Place)
    requires Invariant(s) && Enabled(s, e) && OwnedUnder(s.pool, l.resource, l.key) && IsAt(s, l, place)
    requires !e.UserStep? && !e.DeliverGrant? && !e.DeliverRelease? && !e.AssignNotFound?
    requires !Forgets(s, e, l)
    ensures IsAt(Apply(s, e), l, place)
  {
    if e.StartUser? {
      ClosedHoldsNothing(s, e.user);
    }
    if e.Assign? {
      OwnerKeyKnown(s, l.resource);
    }
    SamePlace(s, Apply(s, e), l, place);
  }

  lemma ClosedHoldsNothing(s: System, u: WorkflowId)
    requires Invariant(s)
    ensures u in s.users && Ended(s.users[u]) ==> Locks(s.users[u]) == []
  {
  }

  /**
   A live grant turns into a leak in exactly the steps that forget it: its signal is lost, its
   release overtakes its registration, or its user drops it.
   */
  lemma LeakIffForgotten(s: System, e: Event, l: Lock, place: Place)
    requires Invariant(s) && Enabled(s, e) && OwnedUnder(s.pool, l.resource, l.key) && IsAt(s, l, place)
    ensures Leaked(Apply(s, e), l.resource, l.key) <==> Forgets(s, e, l)
  {
    if Forgets(s, e, l) {
      ForgottenIsLeaked(s, e, l, place);
    } else if OwnedUnder(Apply(s, e).pool, l.resource, l.key) {
      var place' := Remembered(s, e, l, place);
    }
  }

  /** A grant in transit can be lost at any time, and then its resource leaks. */
  lemma LossLeaks(s: System, k: Key)
    requires Invariant(s) && k in s.grants
    ensures Enabled(s, LoseGrant(k)) && Leaked(Apply(s, LoseGrant(k)), s.grants[k].1, k)
  {
    var l := Lock(s.grants[k].1, k);
    assert OwnedBy(s.pool, l.resource, s.grants[k].0, k);
    ForgottenIsLeaked(s, LoseGrant(k), l, InTransit);
  }

  /** A user can be terminated at any time, and then every lock that it holds or has received leaks. */
  lemma TerminationLeaks(s: System, u: WorkflowId, i: nat)
    requires Invariant(s) && u in s.users && i < |Locks(s.users[u])|
    ensures Enabled(s, UserStep(u, Killed))
    ensures var l := Locks(s.users[u])[i]; Leaked(Apply(s, UserStep(u, Killed)), l.resource, l.key)
  {
    var l := Locks(s.users[u])[i];
    assert Orderly(s.users[u]) && OwnedBy(s.pool, l.resource, u, l.key);
    ForgottenIsLeaked(s, UserStep(u, Killed), l, At(u, i));
  }

  /** Every resource that is given away has a live grant somewhere. */
  ghost predicate AllLive(s: System) {
    forall r | Owner(s.pool, r).Some? :: HasGrant(s, Lock(r, Owner(s.pool, r).value.1))
  }

  ghost predicate HasGrant(s: System, l: Lock) {
    exists place :: IsAt(s, l, place)
  }

  /** The step forgets some live grant. */
  ghost predicate ForgetsSome(s: System, e: Event)
    requires Enabled(s, e)
  {
    exists l :: HasGrant(s, l) && Forgets(s, e, l)
  }

  ghost predicate NothingForgotten(s: System, es: seq<Event>)
    requires Run(s, es)
    decreases |es|
  {
    es == [] || (!ForgetsSome(s, es[0]) && NothingForgotten(Apply(s, es[0]), es[1..]))
  }

  ghost predicate SomeLeaked(s: System) {
    exists l: Lock :: Leaked(s, l.resource, l.key)
  }

  /** Who owns a resource owned it before, unless the step is the assignment of that resource. */
  lemma OwnerBefore(s: System, e: Event, r: Resource)
    requires Invariant(s) && Enabled(s, e) && Owner(Apply(s, e).pool, r).Some?
    ensures Owner(s.pool, r) == Owner(Apply(s, e).pool, r)
            || (&& e.Assign? && Apply(s, e).pool.inFlight.value.resource == r
                && Owner(Apply(s, e).pool, r).value.1 == e.key)
  {
    match e
    case DeliverAcquire(u) => AcquireEffect(s.pool, u);
    case DeliverRelease(k) => DeliverReleaseKeeps(s, k);
    case ResourcesAdded(rs) => AddResourcesEffect(s.pool, rs);
    case Assign(k) => BeginAssignEffect(s.pool, k);
    case AssignAccepted => RegisterEffect(s.pool);
    case AssignNotFound => DropEffect(s.pool);
    case ContinueAsNew => RestartIsIdentity(s.pool);
    case _ =>
  }

  lemma LiveStays(s: System, e: Event)
    requires Invariant(s) && Enabled(s, e) && AllLive(s) && !ForgetsSome(s, e)
    ensures AllLive(Apply(s, e))
  {
    var s' := Apply(s, e);
    forall r | Owner(s'.pool, r).Some?
      ensures HasGrant(s', Lock(r, Owner(s'.pool, r).value.1))
    {
      var l := Lock(r, Owner(s'.pool, r).value.1);
      OwnerBefore(s, e, r);
      if Owner(s.pool, r) == Owner(s'.pool, r) {
        assert HasGrant(s, l) && !Forgets(s, e, l);
        var place :| IsAt(s, l, place);
        var place' := Remembered(s, e, l, place);
      } else {
        assert IsAt(s', l, InTransit);
      }
    }
  }

  lemma {:induction false} LiveRun(s: System, es: seq<Event>)
    requires Invariant(s) && AllLive(s) && Run(s, es)
    ensures AllLive(Exec(s, es)) <==> NothingForgotten(s, es)
    decreases |es|
  {
    if es != [] {
      StepKeepsInvariant(s, es[0]);
      if ForgetsSome(s, es[0]) {
        var l :| HasGrant(s, l) && Forgets(s, es[0], l);
        var place :| IsAt(s, l, place);
        GrantIsOwned(s, l, place);
        ForgottenIsLeaked(s, es[0], l, place);
        LeakIsPermanent(Apply(s, es[0]), es[1..], l.resource, l.key);
        assert !HasGrant(Exec(s, es), l);
      } else {
        LiveStays(s, es[0]);
        LiveRun(Apply(s, es[0]), es[1..]);
      }
    }
  }

  /** Main result: a run ends without a leak exactly when none of its steps has forgotten a live grant. */
  lemma NoLeakIffNothingForgotten(resources: seq<Resource>, waiting: seq<WorkflowId>, es: seq<Event>)
    requires Run(Initial(resources, waiting), es)
    ensures !SomeLeaked(Exec(Initial(resources, waiting), es)) <==> NothingForgotten(Initial(resources, waiting), es)
    ensures !SomeLeaked(Exec(Initial(resources, waiting), es)) <==> AllLive(Exec(Initial(resources, waiting), es))
  {
    var s := Exec(Initial(resources, waiting), es);
    InitialInvariant(resources, waiting);
    NewPoolConsistent(resources, waiting);
    LiveRun(Initial(resources, waiting), es);
    if !AllLive(s) {
      var r :| Owner(s.pool, r).Some? && !HasGrant(s, Lock(r, Owner(s.pool, r).value.1));
      var l := Lock(r, Owner(s.pool, r).value.1);
      assert Leaked(s, l.resource, l.key);
    }
    if SomeLeaked(s) {
      var l: Lock :| Leaked(s, l.resource, l.key);
      assert Owner(s.pool, l.resource).Some? && !HasGrant(s, l);
    }
  }

  /** A grant is in flight and its signal is on its way to a user that waits with nothing received yet. */
  predicate GrantUnderway(s: System, g: Grant) {
    && s.pool.inFlight == Some(g)
    && g.key in s.grants && s.grants[g.key] == (g.workflow, g.resource)
    && g.workflow in s.users && s.users[g.workflow].phase.Waiting? && s.users[g.workflow].acquired == []
  }

  /** The user receives the resource, takes it and fails at once: its release is in transit. */
  lemma UserFailsAtOnce(s: System, g: Grant) returns (s': System)
    requires Invariant(s) && GrantUnderway(s, g)
    ensures var es := [DeliverGrant(g.key), UserStep(g.workflow, Took), UserStep(g.workflow, Failed)];
            Run(s, es) && Exec(s, es) == s'
    ensures Invariant(s') && s'.pool == s.pool && g.key in s'.releases && s'.releases[g.key] == g.resource
  {
    var u := g.workflow;
    var e1, e2, e3 := DeliverGrant(g.key), UserStep(u, Took), UserStep(u, Failed);
    var s1, s2 := UserTakes(s, g);
    s' := UserFails(s2, u, Lock(g.resource, g.key));
    RunThree(s, e1, e2, e3);
  }

  lemma UserTakes(s: System, g: Grant) returns (s1: System, s2: System)
    requires Invariant(s) && GrantUnderway(s, g)
    ensures Enabled(s, DeliverGrant(g.key)) && s1 == Apply(s, DeliverGrant(g.key))
    ensures Enabled(s1, UserStep(g.workflow, Took)) && s2 == Apply(s1, UserStep(g.workflow, Took))
    ensures Invariant(s2) && s2.pool == s.pool
    ensures g.workflow in s2.users && s2.users[g.workflow].phase == Using(Lock(g.resource, g.key), First)
  {
    var u := g.workflow;
    s1 := Apply(s, DeliverGrant(g.key));
    StepKeepsInvariant(s, DeliverGrant(g.key));
    assert s1.users[u].acquired == [Lock(g.resource, g.key)];
    s2 := Apply(s1, UserStep(u, Took));
    StepKeepsInvariant(s1, UserStep(u, Took));
  }

  lemma UserFails(s: System, u: WorkflowId, l: Lock) returns (s': System)
    requires Invariant(s) && u in s.users && s.users[u].phase.Using? && s.users[u].phase.lock == l
    ensures Enabled(s, UserStep(u, Failed)) && s' == Apply(s, UserStep(u, Failed))
    ensures Invariant(s') && s'.pool == s.pool && l.key in s'.releases && s'.releases[l.key] == l.resource
  {
    s' := Apply(s, UserStep(u, Failed));
    StepKeepsInvariant(s, UserStep(u, Failed));
  }

  lemma RunThree(s: System, e1: Event, e2: Event, e3: Event)
    requires Enabled(s, e1) && Enabled(Apply(s, e1), e2) && Enabled(Apply(Apply(s, e1), e2), e3)
    ensures Run(s, [e1, e2, e3]) && Exec(s, [e1, e2, e3]) == Apply(Apply(Apply(s, e1), e2), e3)
  {
    RunOne(Apply(Apply(s, e1), e2), e3, []);
    RunOne(Apply(s, e1), e2, [e3] + []);
    RunOne(s, e1, [e2] + ([e3] + []));
    assert [e1] + ([e2] + ([e3] + [])) == [e1, e2, e3];
  }

  /** From every such state a leak can follow: the user fails at once and its release overtakes the registration. */
  lemma OvertakingLeaks(s: System, g: Grant)
    requires Invariant(s) && GrantUnderway(s, g)
    ensures var es := [DeliverGrant(g.key), UserStep(g.workflow, Took), UserStep(g.workflow, Failed)];
            && Run(s, es) && Enabled(Exec(s, es), DeliverRelease(g.key))
            && Leaked(Apply(Exec(s, es), DeliverRelease(g.key)), g.resource, g.key)
  {
    var s' := UserFailsAtOnce(s, g);
    ReleaseFreesIffRegistered(s', g.key);
  }

  /** The first user of a new pool reaches such a state in three steps. */
  lemma GrantUnderwayReachable() returns (es: seq<Event>)
    ensures Run(Initial(["r"], []), es)
    ensures GrantUnderway(Exec(Initial(["r"], []), es), Grant("r", "u", "k"))
  {
    var s := Initial(["r"], []);
    var start := StartUser("u", Input(None, false, None));
    assert s.pool == Pool(["r"], map["r" := None], [], map[], None) by {
      assert ["r"][1..] == [];
      var one := AddResource(Pool([], map[], [], map[], None), "r");
      assert AddResources(one, []) == one;
    }
    var s1 := Apply(s, start);
    var s2 := Apply(s1, DeliverAcquire("u"));
    assert FirstFree(s2.pool.order, s2.pool.holders) == Some("r");
    var s3 := Apply(s2, Assign("k"));
    es := [start, DeliverAcquire("u"), Assign("k")];
    RunThree(s, start, DeliverAcquire("u"), Assign("k"));
  }
}
