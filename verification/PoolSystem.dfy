/**
 The pool, its users and the signals between them. Signals may be delayed and reordered
 freely; each is delivered at most once. A grant may also be lost, because the run it was
 sent to has closed.
 */
module PoolSystem {
  import opened Wrappers
  import opened ResourcePool
  import opened ResourceUser

  datatype System = System(
    pool: Pool,
    users: map<WorkflowId, User>,
    acquires: multiset<WorkflowId>,                // acquire signals in transit
    grants: map<Key, (WorkflowId, Resource)>,      // assignment signals in transit
    releases: map<Key, Resource>,                  // release signals in transit
    issued: set<Key>)                              // keys drawn so far; a fresh one is not among them

  datatype Event =
    | StartUser(user: WorkflowId, input: Input)
    | UserStep(user: WorkflowId, step: UserEvent)  // any step but Received
    | DeliverAcquire(user: WorkflowId)
    | DeliverGrant(key: Key)
    | LoseGrant(key: Key)
    | DeliverRelease(key: Key)
    | ResourcesAdded(resources: seq<Resource>)
    | Assign(key: Key)                             // the loop starts an assignment under a fresh key
    | AssignAccepted                               // the await on the requester's signal resumes
    | AssignNotFound                               // it fails: the requester does not exist
    | ContinueAsNew

  predicate Enabled(s: System, e: Event) {
    match e
    case StartUser(u, input) => input.reattach.None? && (u in s.users ==> Ended(s.users[u]))
    case UserStep(u, step) => u in s.users && !step.Received? && CanHappen(s.users[u], step)
    case DeliverAcquire(u) => u in s.acquires
    case DeliverGrant(k) =>
      && k in s.grants && s.grants[k].0 in s.users
      && CanHappen(s.users[s.grants[k].0], Received(Lock(s.grants[k].1, k)))
    case LoseGrant(k) => k in s.grants
    case DeliverRelease(k) => k in s.releases
    case ResourcesAdded(_) => true
    case Assign(k) => s.pool.inFlight.None? && CanAssign(s.pool) && k !in s.issued
    case AssignAccepted => s.pool.inFlight.Some?
    case AssignNotFound => s.pool.inFlight.Some? && s.pool.inFlight.value.key in s.grants
    case ContinueAsNew => s.pool.inFlight.None? && !CanAssign(s.pool)
  }

  /** The release that a user's step has added to what it sent, if any. */
  function NewRelease(before: User, after: User): map<Key, Resource> {
    if |after.sent| > |before.sent| && after.sent[|before.sent|].ReleaseSent?
    then var l := after.sent[|before.sent|].lock; map[l.key := l.resource]
    else map[]
  }

  function Apply(s: System, e: Event): System
    requires Enabled(s, e)
  {
    match e
    case StartUser(u, input) => s.(users := s.users[u := Begin(input)], acquires := s.acquires + multiset{u})
    case UserStep(u, step) =>
      var after := Happen(s.users[u], step);
      s.(users := s.users[u := after], releases := s.releases + NewRelease(s.users[u], after))
    case DeliverAcquire(u) => s.(pool := Acquire(s.pool, u), acquires := s.acquires - multiset{u})
    case DeliverGrant(k) =>
      var (u, r) := s.grants[k];
      s.(users := s.users[u := Happen(s.users[u], Received(Lock(r, k)))], grants := s.grants - {k})
    case LoseGrant(k) => s.(grants := s.grants - {k})
    case DeliverRelease(k) => s.(pool := Release(s.pool, k), releases := s.releases - {k})
    case ResourcesAdded(rs) => s.(pool := AddResources(s.pool, rs))
    case Assign(k) =>
      var pool := BeginAssign(s.pool, k);
      s.(pool := pool,
         grants := s.grants[k := (pool.inFlight.value.workflow, pool.inFlight.value.resource)],
         issued := s.issued + {k})
    case AssignAccepted => s.(pool := Register(s.pool))
    case AssignNotFound => s.(pool := Drop(s.pool), grants := s.grants - {s.pool.inFlight.value.key})
    case ContinueAsNew => s.(pool := Restart(s.pool))
  }

  predicate Run(s: System, es: seq<Event>)
    decreases |es|
  {
    es == [] || (Enabled(s, es[0]) && Run(Apply(s, es[0]), es[1..]))
  }

  function Exec(s: System, es: seq<Event>): System
    requires Run(s, es)
    decreases |es|
  {
    if es == [] then s else Exec(Apply(s, es[0]), es[1..])
  }

  function Initial(resources: seq<Resource>, waiting: seq<WorkflowId>): System {
    System(NewPool(resources, waiting), map[], multiset{}, map[], map[], {})
  }

  // ---------- Live grants ----------

  /** Where a lock can be while it stands for a grant that is still live. */
  datatype Place = InTransit | At(user: WorkflowId, slot: nat) | ReleaseInTransit

  predicate IsAt(s: System, l: Lock, place: Place) {
    match place
    case InTransit => l.key in s.grants && s.grants[l.key].1 == l.resource
    case At(u, i) => u in s.users && i < |Locks(s.users[u])| && Locks(s.users[u])[i] == l
    case ReleaseInTransit => l.key in s.releases && s.releases[l.key] == l.resource
  }

  /** Each live grant of a resource is the one the pool has made, and it is in one place only. */
  ghost predicate Exclusive(s: System) {
    forall l, l', place, place' |
      IsAt(s, l, place) && IsAt(s, l', place') && l.resource == l'.resource ::
      l == l' && place == place'
  }

  // ---------- The invariant ----------

  predicate OwnedBy(p: Pool, r: Resource, u: WorkflowId, k: Key) {
    Owner(p, r) == Some((u, k))
  }

  predicate OwnedUnder(p: Pool, r: Resource, k: Key) {
    Owner(p, r).Some? && Owner(p, r).value.1 == k
  }

  /** Every live grant is the one the pool's ledger records. */
  ghost predicate Recorded(s: System) {
    && (forall k | k in s.grants :: OwnedBy(s.pool, s.grants[k].1, s.grants[k].0, k))
    && (forall u, i | u in s.users && 0 <= i < |Locks(s.users[u])| ::
          OwnedBy(s.pool, Locks(s.users[u])[i].resource, u, Locks(s.users[u])[i].key))
    && (forall k | k in s.releases :: OwnedUnder(s.pool, s.releases[k], k))
  }

  predicate DistinctKeys(ls: seq<Lock>) {
    forall i, j | 0 <= i < j < |ls| :: ls[i].key != ls[j].key
  }

  /** No key is in two places. */
  ghost predicate Single(s: System) {
    && (forall u | u in s.users :: DistinctKeys(Locks(s.users[u])))
    && (forall u, i | u in s.users && 0 <= i < |Locks(s.users[u])| ::
          Locks(s.users[u])[i].key !in s.grants && Locks(s.users[u])[i].key !in s.releases)
    && s.grants.Keys !! s.releases.Keys
  }

  ghost predicate KnownKeys(s: System) {
    && s.pool.keys.Keys <= s.issued
    && (s.pool.inFlight.Some? ==> s.pool.inFlight.value.key in s.issued)
  }

  ghost predicate Invariant(s: System) {
    && Consistent(s.pool)
    && KnownKeys(s)
    && Recorded(s)
    && Single(s)
    && (forall u | u in s.users :: Orderly(s.users[u]))
  }

  /** A key owns one resource only. */
  lemma OneResourcePerKey(p: Pool, r: Resource, r': Resource)
    requires Consistent(p) && Owner(p, r).Some? && Owner(p, r').Some? && Owner(p, r).value.1 == Owner(p, r').value.1
    ensures r == r'
  {
    if IsHeld(p, r) {
      assert KeyRegistered(p, r);
    }
    if IsHeld(p, r') {
      assert KeyRegistered(p, r');
    }
  }

  lemma OwnerKeyKnown(s: System, r: Resource)
    requires Consistent(s.pool) && KnownKeys(s)
    ensures Owner(s.pool, r).Some? ==> Owner(s.pool, r).value.1 in s.issued
  {
    if IsHeld(s.pool, r) {
      assert KeyRegistered(s.pool, r);
    }
  }

  /** A live grant is the one the ledger records. */
  lemma GrantIsOwned(s: System, l: Lock, place: Place)
    requires Invariant(s) && IsAt(s, l, place)
    ensures OwnedUnder(s.pool, l.resource, l.key)
  {
    match place
    case InTransit => assert OwnedBy(s.pool, s.grants[l.key].1, s.grants[l.key].0, l.key);
    case At(u, i) => assert OwnedBy(s.pool, Locks(s.users[u])[i].resource, u, Locks(s.users[u])[i].key);
    case ReleaseInTransit => assert OwnedUnder(s.pool, s.releases[l.key], l.key);
  }

  /** An unowned resource has no live grant, and no live grant carries a key that has not been drawn. */
  lemma NoGrant(s: System, r: Resource, k: Key)
    requires Invariant(s)
    ensures Owner(s.pool, r).None? ==> forall l, place | IsAt(s, l, place) :: l.resource != r
    ensures k !in s.issued ==> forall l, place | IsAt(s, l, place) :: l.key != k
  {
    forall l, place | IsAt(s, l, place)
      ensures Owner(s.pool, r).None? ==> l.resource != r
      ensures k !in s.issued ==> l.key != k
    {
      GrantIsOwned(s, l, place);
      OwnerKeyKnown(s, l.resource);
    }
  }

  // ---------- Steps of users ----------

  /** A user's own steps keep a slice of its locks; what it releases is the lock it held. */
  lemma UserLocks(u: User, step: UserEvent) returns (from: nat, to: nat)
    requires Orderly(u) && CanHappen(u, step) && !step.Received?
    ensures from <= to <= |Locks(u)| && Locks(Happen(u, step)) == Locks(u)[from..to]
    ensures Orderly(Happen(u, step))
    ensures var m := NewRelease(u, Happen(u, step));
            m == map[] || (from == 1 && m == map[Locks(u)[0].key := Locks(u)[0].resource])
  {
    var after := Happen(u, step);
    if step.Done? || step.Failed? {
      from, to := FirstLocks(u, after);
    } else if step.Took? {
      from, to := 0, |Locks(u)|;
      assert Locks(after) == Locks(u)[0..to];
    } else if step.Resumed? {
      from, to := 0, 1;
      assert Locks(after) == Locks(u)[0..1];
    } else {
      from, to := 0, 0;
      assert Locks(after) == [];
    }
  }

  /** After an activity the lock is released or kept; the unused ones are kept or, with the client, gone. */
  lemma FirstLocks(u: User, after: User) returns (from: nat, to: nat)
    requires u.phase.Using?
    requires after == ActivityDone(u) || after == Unlock(u)
    ensures from <= to <= |Locks(u)| && Locks(after) == Locks(u)[from..to]
    ensures var m := NewRelease(u, after);
            m == map[] || (from == 1 && m == map[Locks(u)[0].key := Locks(u)[0].resource])
  {
    from, to := if after.phase.Releasing? then 1 else 0, if after.phase.Detached? then 1 else |Locks(u)|;
    assert Locks(u)[1..] == u.acquired && Locks(u)[..1] == [u.phase.lock];
    assert Locks(after) == Locks(u)[from..to];
  }

  /** No two locks of the system carry one key. */
  lemma KeysApart(s: System, u: WorkflowId, i: nat, u': WorkflowId, i': nat)
    requires Invariant(s) && u in s.users && i < |Locks(s.users[u])| && u' in s.users && i' < |Locks(s.users[u'])|
    requires Locks(s.users[u])[i].key == Locks(s.users[u'])[i'].key
    ensures u == u' && i == i'
  {
    var l, l' := Locks(s.users[u])[i], Locks(s.users[u'])[i'];
    assert OwnedBy(s.pool, l.resource, u, l.key) && OwnedBy(s.pool, l'.resource, u', l'.key);
    OneResourcePerKey(s.pool, l.resource, l'.resource);
    assert DistinctKeys(Locks(s.users[u]));
  }

  /** u changes to after, which keeps a slice of its locks and may release the first of them. */
  ghost predicate Shrinks(s: System, s': System, u: WorkflowId, after: User, from: nat, to: nat,
        released: map<Key, Resource>) {
    && u in s.users && from <= to <= |Locks(s.users[u])|
    && s' == s.(users := s.users[u := after], releases := s.releases + released)
    && Locks(after) == Locks(s.users[u])[from..to]
    && (released == map[] ||
        (from == 1 && released == map[Locks(s.users[u])[0].key := Locks(s.users[u])[0].resource]))
  }

  lemma ShrinkKeepsLock(s: System, s': System, u: WorkflowId, after: User, from: nat, to: nat, released: map<Key,
        Resource>, u': WorkflowId, i: nat)
    requires Invariant(s) && Shrinks(s, s', u, after, from, to, released)
    requires u' in s'.users && i < |Locks(s'.users[u'])|
    ensures var l := Locks(s'.users[u'])[i];
            OwnedBy(s'.pool, l.resource, u', l.key) && l.key !in s'.grants && l.key !in s'.releases
  {
    var i' := if u' == u then from + i else i;
    assert Locks(s'.users[u'])[i] == Locks(s.users[u'])[i'];
    if Locks(s.users[u'])[i'].key in released {
      KeysApart(s, u, 0, u', i');
    }
  }

  lemma ShrinkKeepsDistinct(s: System, s': System, u: WorkflowId, after: User, from: nat, to: nat,
        released: map<Key, Resource>, u': WorkflowId)
    requires Invariant(s) && Shrinks(s, s', u, after, from, to, released) && u' in s'.users
    ensures DistinctKeys(Locks(s'.users[u']))
  {
    assert DistinctKeys(Locks(s.users[u']));
  }

  lemma ShrinkKeepsReleases(s: System, s': System, u: WorkflowId, after: User, from: nat, to: nat,
        released: map<Key, Resource>)
    requires Invariant(s) && Shrinks(s, s', u, after, from, to, released)
    ensures forall k | k in s'.releases :: OwnedUnder(s'.pool, s'.releases[k], k) && k !in s'.grants
  {
    if released != map[] {
      var l := Locks(s.users[u])[0];
      assert OwnedBy(s.pool, l.resource, u, l.key) && l.key !in s.grants;
    }
  }

  lemma UserStepKeeps(s: System, u: WorkflowId, step: UserEvent)
    requires Invariant(s) && Enabled(s, UserStep(u, step))
    ensures Invariant(Apply(s, UserStep(u, step)))
  {
    var s' := Apply(s, UserStep(u, step));
    var after := Happen(s.users[u], step);
    var from, to := UserLocks(s.users[u], step);
    var released := NewRelease(s.users[u], after);
    assert Shrinks(s, s', u, after, from, to, released);
    forall u', i | u' in s'.users && 0 <= i < |Locks(s'.users[u'])|
      ensures var l := Locks(s'.users[u'])[i];
              OwnedBy(s'.pool, l.resource, u', l.key) && l.key !in s'.grants && l.key !in s'.releases
    {
      ShrinkKeepsLock(s, s', u, after, from, to, released, u', i);
    }
    forall u' | u' in s'.users
      ensures DistinctKeys(Locks(s'.users[u']))
    {
      ShrinkKeepsDistinct(s, s', u, after, from, to, released, u');
    }
    ShrinkKeepsReleases(s, s', u, after, from, to, released);
  }

  lemma StartUserKeeps(s: System, u: WorkflowId, input: Input)
    requires Invariant(s) && Enabled(s, StartUser(u, input))
    ensures Invariant(Apply(s, StartUser(u, input)))
  {
    assert Locks(Begin(input)) == [];
  }

  /** u receives the lock that its grant in transit carried. */
  ghost predicate Receives(s: System, s': System, u: WorkflowId, l: Lock) {
    && u in s.users && l.key in s.grants && s.grants[l.key] == (u, l.resource)
    && s' == s.(users := s.users[u := Receive(s.users[u], l)], grants := s.grants - {l.key})
  }

  lemma ReceiveKeepsLock(s: System, s': System, u: WorkflowId, l: Lock, u': WorkflowId, i: nat)
    requires Invariant(s) && Receives(s, s', u, l)
    requires u' in s'.users && i < |Locks(s'.users[u'])|
    ensures var l' := Locks(s'.users[u'])[i];
            OwnedBy(s'.pool, l'.resource, u', l'.key) && l'.key !in s'.grants && l'.key !in s'.releases
  {
    assert OwnedBy(s.pool, l.resource, u, l.key) && l.key !in s.releases;
    assert Locks(s'.users[u]) == Locks(s.users[u]) + [l];
    if u' != u || i < |Locks(s.users[u])| {
      assert Locks(s'.users[u'])[i] == Locks(s.users[u'])[i];
    }
  }

  lemma ReceiveKeepsDistinct(s: System, s': System, u: WorkflowId, l: Lock)
    requires Invariant(s) && Receives(s, s', u, l)
    ensures DistinctKeys(Locks(s'.users[u]))
  {
    assert Locks(s'.users[u]) == Locks(s.users[u]) + [l];
    assert DistinctKeys(Locks(s.users[u]));
    assert forall i | 0 <= i < |Locks(s.users[u])| :: Locks(s.users[u])[i].key != l.key;
  }

  lemma DeliverGrantKeeps(s: System, k: Key)
    requires Invariant(s) && Enabled(s, DeliverGrant(k))
    ensures Invariant(Apply(s, DeliverGrant(k)))
  {
    var s' := Apply(s, DeliverGrant(k));
    var (u, r) := s.grants[k];
    var l := Lock(r, k);
    assert Receives(s, s', u, l);
    forall u', i | u' in s'.users && 0 <= i < |Locks(s'.users[u'])|
      ensures var l' := Locks(s'.users[u'])[i];
              OwnedBy(s'.pool, l'.resource, u', l'.key) && l'.key !in s'.grants && l'.key !in s'.releases
    {
      ReceiveKeepsLock(s, s', u, l, u', i);
    }
    ReceiveKeepsDistinct(s, s', u, l);
    assert forall u' | u' in s.users && u' != u :: DistinctKeys(Locks(s'.users[u']));
  }

  // ---------- Steps of the pool ----------

  /** An assignment goes to a resource of which no live grant is left, under a key no live grant has. */
  lemma AssignKeeps(s: System, k: Key)
    requires Invariant(s) && Enabled(s, Assign(k))
    ensures Invariant(Apply(s, Assign(k)))
    ensures var r := Apply(s, Assign(k)).pool.inFlight.value.resource;
            forall l, place | IsAt(s, l, place) :: l.resource != r && l.key != k
  {
    AssignRecords(s, k);
    BeginAssignEffect(s.pool, k);
    NoGrant(s, Apply(s, Assign(k)).pool.inFlight.value.resource, k);
  }

  lemma AssignRecords(s: System, k: Key)
    requires Invariant(s) && Enabled(s, Assign(k))
    ensures Invariant(Apply(s, Assign(k)))
  {
    var s' := Apply(s, Assign(k));
    BeginAssignEffect(s.pool, k);
    var r := s'.pool.inFlight.value.resource;
    forall k' | k' in s.grants
      ensures k' != k && OwnedBy(s'.pool, s.grants[k'].1, s.grants[k'].0, k')
    {
      assert OwnedBy(s.pool, s.grants[k'].1, s.grants[k'].0, k');
      OwnerKeyKnown(s, s.grants[k'].1);
    }
    forall u, i | u in s.users && 0 <= i < |Locks(s.users[u])|
      ensures var l := Locks(s.users[u])[i]; l.key != k && OwnedBy(s'.pool, l.resource, u, l.key)
    {
      var l := Locks(s.users[u])[i];
      assert OwnedBy(s.pool, l.resource, u, l.key);
      OwnerKeyKnown(s, l.resource);
    }
    forall k' | k' in s.releases
      ensures k' != k && OwnedUnder(s'.pool, s.releases[k'], k')
    {
      assert OwnedUnder(s.pool, s.releases[k'], k');
      OwnerKeyKnown(s, s.releases[k']);
    }
  }

  lemma AssignNotFoundKeeps(s: System)
    requires Invariant(s) && Enabled(s, AssignNotFound)
    ensures Invariant(Apply(s, AssignNotFound))
  {
    DropEffect(s.pool);
  }

  lemma ReleaseOwners(s: System, k: Key, r: Resource)
    requires Consistent(s.pool)
    ensures Owner(Release(s.pool, k), r) == if k in s.pool.keys && s.pool.keys[k] == r then None else Owner(s.pool, r)
  {
    if r in s.pool.holders {
      ReleaseEffect(s.pool, k, r);
    } else {
      ReleaseKeeps(s.pool, k);
    }
  }

  /**
   A delivered release either frees the one resource its key owns, of which no live grant is left
   then, or, not yet registered, changes nothing.
   */
  lemma DeliverReleaseKeeps(s: System, k: Key)
    requires Invariant(s) && Enabled(s, DeliverRelease(k))
    ensures Invariant(Apply(s, DeliverRelease(k)))
    ensures var s' := Apply(s, DeliverRelease(k)); var r := s.releases[k];
            && (forall x :: Owner(s'.pool, x) == if x == r && k in s.pool.keys then None else Owner(s.pool, x))
            && (k in s.pool.keys ==> forall l, place | IsAt(s', l, place) :: l.resource != r)
  {
    var s' := Apply(s, DeliverRelease(k));
    var r := s.releases[k];
    KeyOfRelease(s, k);
    ReleaseKeeps(s.pool, k);
    forall x
      ensures Owner(s'.pool, x) == if x == r && k in s.pool.keys then None else Owner(s.pool, x)
    {
      ReleaseOwners(s, k, x);
    }
    if k in s.pool.keys {
      FreedKeeps(s, s', k, r);
      NoGrant(s', r, k);
    } else {
      IgnoredKeeps(s, s', k);
    }
  }

  lemma KeyOfRelease(s: System, k: Key)
    requires Invariant(s) && k in s.releases
    ensures OwnedUnder(s.pool, s.releases[k], k)
    ensures k in s.pool.keys ==> s.pool.keys[k] == s.releases[k]
  {
    if k in s.pool.keys {
      assert KeyRegistered(s.pool, s.pool.keys[k]);
      OneResourcePerKey(s.pool, s.pool.keys[k], s.releases[k]);
    }
  }

  lemma IgnoredKeeps(s: System, s': System, k: Key)
    requires Invariant(s) && s' == s.(releases := s.releases - {k})
    ensures Invariant(s')
  {
  }

  /** With the release of k consumed no live grant is left that its resource could belong to. */
  lemma FreedKeeps(s: System, s': System, k: Key, r: Resource)
    requires Invariant(s) && k in s.releases && OwnedUnder(s.pool, r, k)
    requires s' == s.(pool := s'.pool, releases := s.releases - {k})
    requires Consistent(s'.pool) && KnownKeys(s')
    requires forall x :: Owner(s'.pool, x) == if x == r then None else Owner(s.pool, x)
    ensures Invariant(s')
  {
    forall k' | k' in s'.releases
      ensures OwnedUnder(s'.pool, s'.releases[k'], k')
    {
      assert OwnedUnder(s.pool, s.releases[k'], k');
    }
  }

  lemma SameOwnersKeep(s: System, s': System)
    requires Invariant(s) && Consistent(s'.pool) && KnownKeys(s')
    requires s'.users == s.users && s'.grants == s.grants && s'.releases == s.releases
    requires forall r :: Owner(s'.pool, r) == Owner(s.pool, r)
    ensures Invariant(s')
  {
  }

  lemma DeliverAcquireKeeps(s: System, u: WorkflowId)
    requires Invariant(s) && Enabled(s, DeliverAcquire(u))
    ensures Invariant(Apply(s, DeliverAcquire(u)))
  {
    AcquireEffect(s.pool, u);
    SameOwnersKeep(s, Apply(s, DeliverAcquire(u)));
  }

  lemma ResourcesAddedKeeps(s: System, rs: seq<Resource>)
    requires Invariant(s)
    ensures Invariant(Apply(s, ResourcesAdded(rs)))
  {
    AddResourcesKeeps(s.pool, rs);
    AddResourcesEffect(s.pool, rs);
    SameOwnersKeep(s, Apply(s, ResourcesAdded(rs)));
  }

  lemma AssignAcceptedKeeps(s: System)
    requires Invariant(s) && Enabled(s, AssignAccepted)
    ensures Invariant(Apply(s, AssignAccepted))
  {
    RegisterEffect(s.pool);
    SameOwnersKeep(s, Apply(s, AssignAccepted));
  }

  lemma StepKeepsInvariant(s: System, e: Event)
    requires Invariant(s) && Enabled(s, e)
    ensures Invariant(Apply(s, e))
  {
    match e
    case StartUser(u, input) => StartUserKeeps(s, u, input);
    case UserStep(u, step) => UserStepKeeps(s, u, step);
    case DeliverGrant(k) => DeliverGrantKeeps(s, k);
    case LoseGrant(k) =>
    case DeliverRelease(k) => DeliverReleaseKeeps(s, k);
    case Assign(k) => AssignKeeps(s, k);
    case AssignNotFound => AssignNotFoundKeeps(s);
    case DeliverAcquire(u) => DeliverAcquireKeeps(s, u);
    case ResourcesAdded(rs) => ResourcesAddedKeeps(s, rs);
    case AssignAccepted => AssignAcceptedKeeps(s);
    case ContinueAsNew => RestartIsIdentity(s.pool);
  }

  lemma {:induction false} RunKeepsInvariant(s: System, es: seq<Event>)
    requires Invariant(s) && Run(s, es)
    ensures Invariant(Exec(s, es))
    decreases |es|
  {
    if es != [] {
      StepKeepsInvariant(s, es[0]);
      RunKeepsInvariant(Apply(s, es[0]), es[1..]);
    }
  }

  lemma InitialInvariant(resources: seq<Resource>, waiting: seq<WorkflowId>)
    ensures Invariant(Initial(resources, waiting))
  {
    NewPoolConsistent(resources, waiting);
  }

  // ---------- Mutual exclusion ----------

  lemma InvariantExcludes(s: System)
    requires Invariant(s)
    ensures Exclusive(s)
  {
  }

  predicate IsUsing(s: System, u: WorkflowId, r: Resource) {
    u in s.users && s.users[u].phase.Using? && s.users[u].phase.lock.resource == r
  }

  /**
   Main result: in every reachable state no resource is used by two users, and each has at most one
   live grant, in one place.
   */
  lemma MutualExclusion(resources: seq<Resource>, waiting: seq<WorkflowId>, es: seq<Event>)
    requires Run(Initial(resources, waiting), es)
    ensures var s := Exec(Initial(resources, waiting), es);
            && Exclusive(s)
            && (forall u, u', r | IsUsing(s, u, r) && IsUsing(s, u', r) :: u == u')
  {
    var s := Exec(Initial(resources, waiting), es);
    InitialInvariant(resources, waiting);
    RunKeepsInvariant(Initial(resources, waiting), es);
    InvariantExcludes(s);
    forall u, u', r | IsUsing(s, u, r) && IsUsing(s, u', r)
      ensures u == u'
    {
      assert IsAt(s, s.users[u].phase.lock, At(u, 0)) && IsAt(s, s.users[u'].phase.lock, At(u', 0));
    }
  }
}
