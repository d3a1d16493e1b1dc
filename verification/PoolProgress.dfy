/**
 Exactly when a waiting request can still be served without new resources and new users. It is not
 enough that every resource has a live grant: one that a user receives while it is releasing another
 will never be given back.
 */
module PoolProgress {
  import opened Wrappers
  import opened ResourcePool
  import opened ResourceUser
  import opened PoolSystem
  import opened PoolService

  // ---------- Runs ----------

  /** Neither a resource nor a user is new. */
  predicate NoNewcomer(e: Event) {
    !e.ResourcesAdded? && !e.StartUser?
  }

  /**
   Besides that nothing is lost or terminated, no request arrives, and a requester is not found only
   when it has no open run.
   */
  predicate Ordinary(s: System, e: Event) {
    && NoNewcomer(e) && !e.LoseGrant? && !e.DeliverAcquire? && !(e.UserStep? && e.step.Killed?)
    && (e.AssignNotFound? && s.pool.inFlight.Some? ==>
          var u := s.pool.inFlight.value.workflow; u in s.users ==> Ended(s.users[u]))
  }

  predicate OrdinaryRun(s: System, es: seq<Event>)
    decreases |es|
  {
    es == [] || (Enabled(s, es[0]) && Ordinary(s, es[0]) && OrdinaryRun(Apply(s, es[0]), es[1..]))
  }

  lemma {:induction false} OrdinaryIsRun(s: System, es: seq<Event>)
    requires OrdinaryRun(s, es)
    ensures Run(s, es) && PoolService.Received(es) == [] && forall i | 0 <= i < |es| :: NoNewcomer(es[i])
    decreases |es|
  {
    if es != [] {
      OrdinaryIsRun(Apply(s, es[0]), es[1..]);
      assert forall i | 0 < i < |es| :: es[i] == es[1..][i - 1];
    }
  }

  /** One more ordinary step in front of an ordinary run. */
  lemma Before(s: System, e: Event, es: seq<Event>)
    requires Enabled(s, e) && Ordinary(s, e) && OrdinaryRun(Apply(s, e), es)
    ensures OrdinaryRun(s, [e] + es) && Run(s, [e] + es) && Run(Apply(s, e), es)
    ensures Exec(s, [e] + es) == Exec(Apply(s, e), es)
  {
    OrdinaryIsRun(Apply(s, e), es);
    RunOne(s, e, es);
    assert ([e] + es)[0] == e && ([e] + es)[1..] == es;
  }

  lemma {:induction false} Join(s: System, es: seq<Event>, more: seq<Event>)
    requires Run(s, es) && Run(Exec(s, es), more)
    ensures Run(s, es + more) && Exec(s, es + more) == Exec(Exec(s, es), more)
    decreases |es|
  {
    if es == [] {
      assert es + more == more;
    } else {
      var all, s' := es + more, Apply(s, es[0]);
      Join(s', es[1..], more);
      assert all[0] == es[0] && all[1..] == es[1..] + more;
      assert Run(s, all) && Exec(s, all) == Exec(s', all[1..]);
    }
  }

  lemma {:induction false} JoinOrdinary(s: System, es: seq<Event>, more: seq<Event>)
    requires OrdinaryRun(s, es) && Run(s, es) && OrdinaryRun(Exec(s, es), more)
    ensures OrdinaryRun(s, es + more)
    decreases |es|
  {
    if es == [] {
      assert es + more == more;
    } else {
      JoinOrdinary(Apply(s, es[0]), es[1..], more);
      assert (es + more)[0] == es[0] && (es + more)[1..] == es[1..] + more;
    }
  }

  // ---------- What can still be given back ----------

  predicate Unowned(s: System, r: Resource) {
    r in s.pool.holders && Owner(s.pool, r).None?
  }

  /** The user works on a resource, or has received the one it will take. */
  predicate WillRelease(u: User) {
    u.phase.Using? || u.phase.Detached? || (u.phase.Waiting? && u.acquired != [])
  }

  /** The assignment in flight has not reached its requester. */
  predicate Undelivered(s: System) {
    s.pool.inFlight.Some? && s.pool.inFlight.value.key in s.grants
  }

  predicate WillReceive(s: System, k: Key) {
    k in s.grants && s.grants[k].0 in s.users && s.users[s.grants[k].0].phase.Waiting?
  }

  /** Some resource is free, or on its way to becoming free. */
  ghost predicate Recoverable(s: System) {
    || (exists r :: Unowned(s, r))
    || Undelivered(s)
    || s.releases != map[]
    || (exists u :: u in s.users && WillRelease(s.users[u]))
    || (exists k :: WillReceive(s, k))
  }

  /** The pool is ready to assign, as soon as a request waits. */
  ghost predicate Open(s: System) {
    s.pool.inFlight.None? && exists r :: Unowned(s, r)
  }

  /** more frees a resource by ordinary steps; the waiters stay. */
  ghost predicate Frees(s: System, more: seq<Event>) {
    && OrdinaryRun(s, more) && Run(s, more)
    && Invariant(Exec(s, more)) && Open(Exec(s, more)) && Exec(s, more).pool.waiters == s.pool.waiters
  }

  lemma FreesBefore(s: System, e: Event, more: seq<Event>)
    requires Enabled(s, e) && Ordinary(s, e) && Apply(s, e).pool.waiters == s.pool.waiters
    requires Frees(Apply(s, e), more)
    ensures Frees(s, [e] + more)
  {
    Before(s, e, more);
  }

  lemma FreesAtOnce(s: System)
    requires Invariant(s) && Open(s)
    ensures Frees(s, [])
  {
  }

  /** The next step of a user's own. */
  function NextOwn(u: User): UserEvent {
    match u.phase
    case Waiting => if u.acquired == [] then TimedOut else Took
    case Using(_, _) => Done
    case Detached(_) => Resumed
    case _ => ReleaseAccepted
  }

  lemma OwnStep(s: System, u: WorkflowId) returns (s': System)
    requires Invariant(s) && u in s.users && !Ended(s.users[u])
    ensures Enabled(s, UserStep(u, NextOwn(s.users[u]))) && Ordinary(s, UserStep(u, NextOwn(s.users[u])))
    ensures s' == Apply(s, UserStep(u, NextOwn(s.users[u]))) && Invariant(s')
    ensures s'.pool == s.pool && s'.grants == s.grants && u in s'.users && Fuel(s'.users[u]) < Fuel(s.users[u])
    ensures WillRelease(s.users[u]) ==> WillRelease(s'.users[u]) || s'.releases != map[]
  {
    var step := NextOwn(s.users[u]);
    assert Orderly(s.users[u]);
    s' := Apply(s, UserStep(u, step));
    StepKeepsInvariant(s, UserStep(u, step));
    var after := Happen(s.users[u], step);
    if WillRelease(s.users[u]) && !WillRelease(after) {
      var k := s.users[u].phase.lock.key;
      assert k in NewRelease(s.users[u], after) && k in s'.releases;
    }
  }

  /** The requester comes to its end first; then it is not found, and the resource is free. */
  lemma {:induction false} FreeUndelivered(s: System) returns (more: seq<Event>)
    requires Invariant(s) && Undelivered(s)
    ensures Frees(s, more)
    decreases var u := s.pool.inFlight.value.workflow; if u in s.users then Fuel(s.users[u]) else 0
  {
    var g := s.pool.inFlight.value;
    if g.workflow in s.users && !Ended(s.users[g.workflow]) {
      var s' := OwnStep(s, g.workflow);
      more := FreeUndelivered(s');
      FreesBefore(s, UserStep(g.workflow, NextOwn(s.users[g.workflow])), more);
      more := [UserStep(g.workflow, NextOwn(s.users[g.workflow]))] + more;
    } else {
      StepKeepsInvariant(s, AssignNotFound);
      DropEffect(s.pool);
      assert Unowned(Apply(s, AssignNotFound), g.resource);
      FreesAtOnce(Apply(s, AssignNotFound));
      FreesBefore(s, AssignNotFound, []);
      more := [AssignNotFound] + [];
    }
  }

  lemma FreeReleased(s: System) returns (more: seq<Event>)
    requires Invariant(s) && s.pool.inFlight.None? && s.releases != map[]
    ensures Frees(s, more)
  {
    var k :| k in s.releases;
    StepKeepsInvariant(s, DeliverRelease(k));
    ReleaseFreesIffRegistered(s, k);
    assert Unowned(Apply(s, DeliverRelease(k)), s.releases[k]);
    FreesAtOnce(Apply(s, DeliverRelease(k)));
    FreesBefore(s, DeliverRelease(k), []);
    more := [DeliverRelease(k)] + [];
  }

  lemma {:induction false} FreeHeld(s: System, u: WorkflowId) returns (more: seq<Event>)
    requires Invariant(s) && s.pool.inFlight.None? && u in s.users && WillRelease(s.users[u])
    ensures Frees(s, more)
    decreases Fuel(s.users[u])
  {
    var s' := OwnStep(s, u);
    if s'.releases != map[] {
      more := FreeReleased(s');
    } else {
      more := FreeHeld(s', u);
    }
    FreesBefore(s, UserStep(u, NextOwn(s.users[u])), more);
    more := [UserStep(u, NextOwn(s.users[u]))] + more;
  }

  lemma FreeReceived(s: System, k: Key) returns (more: seq<Event>)
    requires Invariant(s) && s.pool.inFlight.None? && WillReceive(s, k)
    ensures Frees(s, more)
  {
    StepKeepsInvariant(s, DeliverGrant(k));
    more := FreeHeld(Apply(s, DeliverGrant(k)), s.grants[k].0);
    FreesBefore(s, DeliverGrant(k), more);
    more := [DeliverGrant(k)] + more;
  }

  lemma FreeIdle(s: System) returns (more: seq<Event>)
    requires Invariant(s) && s.pool.inFlight.None? && Recoverable(s)
    ensures Frees(s, more)
  {
    if exists r :: Unowned(s, r) {
      FreesAtOnce(s);
      more := [];
    } else if s.releases != map[] {
      more := FreeReleased(s);
    } else if u :| u in s.users && WillRelease(s.users[u]) {
      more := FreeHeld(s, u);
    } else {
      var k :| WillReceive(s, k);
      more := FreeReceived(s, k);
    }
  }

  /** Whatever is recoverable can be freed. */
  lemma FreeSome(s: System) returns (more: seq<Event>)
    requires Invariant(s) && Recoverable(s)
    ensures Frees(s, more)
  {
    if Undelivered(s) {
      more := FreeUndelivered(s);
    } else if s.pool.inFlight.Some? {
      var s' := Apply(s, AssignAccepted);
      StepKeepsInvariant(s, AssignAccepted);
      RegisterEffect(s.pool);
      if r :| Unowned(s, r) {
        assert Unowned(s', r);
      } else if k :| WillReceive(s, k) {
        assert WillReceive(s', k);
      }
      more := FreeIdle(s');
      FreesBefore(s, AssignAccepted, more);
      more := [AssignAccepted] + more;
    } else {
      more := FreeIdle(s);
    }
  }

  // ---------- Serving the waiters ----------

  lemma AssignNow(s: System) returns (k: Key)
    requires Invariant(s) && Open(s) && s.pool.waiters != []
    ensures Enabled(s, Assign(k)) && Invariant(Apply(s, Assign(k))) && Undelivered(Apply(s, Assign(k)))
    ensures |Apply(s, Assign(k)).pool.waiters| == |s.pool.waiters| - 1
  {
    k := FreshKey(s.issued);
    var r :| Unowned(s, r);
    if IsHeld(s.pool, r) {
      assert KeyRegistered(s.pool, r);
    }
    NothingIdle(s.pool);
    StepKeepsInvariant(s, Assign(k));
  }

  /** The waiter at position i is reached after i others. */
  lemma {:induction false} Reach(s: System, i: nat) returns (more: seq<Event>)
    requires Invariant(s) && Recoverable(s) && i < |s.pool.waiters|
    ensures OrdinaryRun(s, more) && Run(s, more)
    ensures |Exec(s, more).pool.waiters| == |s.pool.waiters| - (i + 1)
    decreases i
  {
    var free := FreeSome(s);
    var s1 := Exec(s, free);
    var k := AssignNow(s1);
    var rest := [];
    if i > 0 {
      rest := Reach(Apply(s1, Assign(k)), i - 1);
    }
    Before(s1, Assign(k), rest);
    Join(s, free, [Assign(k)] + rest);
    JoinOrdinary(s, free, [Assign(k)] + rest);
    more := free + ([Assign(k)] + rest);
  }

  /** The requests attempted are then the first ones in the queue, this one included. */
  lemma CanBeServed(s: System, i: nat) returns (more: seq<Event>)
    requires Invariant(s) && Recoverable(s) && i < |s.pool.waiters|
    ensures OrdinaryRun(s, more) && Run(s, more) && Attempted(s, more) == Names(s.pool.waiters)[..i + 1]
  {
    more := Reach(s, i);
    OrdinaryIsRun(s, more);
    QueueRun(s, more);
    assert Attempted(s, more) == (Attempted(s, more) + Names(Exec(s, more).pool.waiters))[..i + 1];
  }

  // ---------- What cannot be recovered ----------

  lemma UserStaysHopeless(u: User, step: UserEvent)
    requires Orderly(u) && CanHappen(u, step) && !step.Received? && !WillRelease(u)
    ensures !WillRelease(Happen(u, step)) && NewRelease(u, Happen(u, step)) == map[]
    ensures Happen(u, step).phase.Waiting? ==> u.phase.Waiting?
  {
  }

  lemma HopelessStays(s: System, e: Event)
    requires Invariant(s) && !Recoverable(s) && Enabled(s, e) && NoNewcomer(e)
    ensures !Recoverable(Apply(s, e)) && !e.Assign?
  {
    if e.Assign? {
      BeginAssignEffect(s.pool, e.key);
      assert Unowned(s, Apply(s, e).pool.inFlight.value.resource);
    } else {
      HopelessUsers(s, e);
      HopelessPool(s, e);
    }
  }

  lemma HopelessPool(s: System, e: Event)
    requires Invariant(s) && !Recoverable(s) && Enabled(s, e) && NoNewcomer(e) && !e.Assign?
    ensures !Undelivered(Apply(s, e)) && forall r :: !Unowned(Apply(s, e), r)
  {
    match e {
      case DeliverAcquire(u) => AcquireEffect(s.pool, u);
      case AssignAccepted => RegisterEffect(s.pool);
      case ContinueAsNew => RestartIsIdentity(s.pool);
      case _ =>
    }
    forall r
      ensures !Unowned(Apply(s, e), r)
    {
      assert !Unowned(s, r);
      assert r in Apply(s, e).pool.holders <==> r in s.pool.holders;
    }
  }

  lemma HopelessUsers(s: System, e: Event)
    requires Invariant(s) && !Recoverable(s) && Enabled(s, e) && NoNewcomer(e) && !e.Assign?
    ensures var s' := Apply(s, e);
            && s'.releases == map[]
            && (forall u | u in s'.users :: !WillRelease(s'.users[u]))
            && (forall k :: !WillReceive(s', k))
  {
    var s' := Apply(s, e);
    assert forall u | u in s.users :: !WillRelease(s.users[u]);
    assert forall k :: !WillReceive(s, k);
    match e {
      case UserStep(u, step) => UserStaysHopeless(s.users[u], step);
      case DeliverGrant(k) => assert !WillReceive(s, k);
      case _ =>
    }
    forall k
      ensures !WillReceive(s', k)
    {
      assert !WillReceive(s, k);
    }
  }

  lemma {:induction false} NeverServed(s: System, es: seq<Event>)
    requires Invariant(s) && !Recoverable(s) && Run(s, es) && forall i | 0 <= i < |es| :: NoNewcomer(es[i])
    ensures Attempted(s, es) == [] && !Recoverable(Exec(s, es))
    decreases |es|
  {
    if es != [] {
      HopelessStays(s, es[0]);
      StepKeepsInvariant(s, es[0]);
      NeverServed(Apply(s, es[0]), es[1..]);
    }
  }

  ghost predicate Serves(s: System, es: seq<Event>, i: nat) {
    Run(s, es) && |Attempted(s, es)| > i && forall j | 0 <= j < |es| :: NoNewcomer(es[j])
  }

  /**
   Main result: a waiting request can still be attempted without new resources and users if and only
   if some resource is recoverable; and then ordinary steps suffice.
   */
  lemma ServedIff(s: System, i: nat)
    requires Invariant(s) && i < |s.pool.waiters|
    ensures (exists es :: Serves(s, es, i)) <==> Recoverable(s)
    ensures (exists es :: OrdinaryRun(s, es) && Serves(s, es, i)) <==> Recoverable(s)
  {
    if Recoverable(s) {
      var es := CanBeServed(s, i);
      OrdinaryIsRun(s, es);
      assert OrdinaryRun(s, es) && Serves(s, es, i);
    } else {
      forall es
        ensures !Serves(s, es, i)
      {
        if Serves(s, es, i) {
          NeverServed(s, es);
        }
      }
    }
  }

  /** An operator who adds a new resource makes service possible again, whatever has leaked. */
  lemma NewResourceRevives(s: System, r: Resource, i: nat)
    requires Invariant(s) && r !in s.pool.holders && i < |s.pool.waiters|
    ensures var s' := Apply(s, ResourcesAdded([r]));
            Unowned(s', r) && s'.pool.waiters == s.pool.waiters && exists es :: Serves(s', es, i)
  {
    var s' := Apply(s, ResourcesAdded([r]));
    AddResourcesEffect(s.pool, [r]);
    AddResourcesKeeps(s.pool, [r]);
    StepKeepsInvariant(s, ResourcesAdded([r]));
    assert s'.pool.holders[r] == None;
    assert Unowned(s', r);
    ServedIff(s', i);
  }

  /** Where the live grants are when nothing is recoverable. */
  lemma HopelessGrants(s: System, l: Lock, place: Place)
    requires Invariant(s) && !Recoverable(s) && IsAt(s, l, place)
    ensures match place
            case InTransit => !WillReceive(s, l.key)
            case At(u, _) => s.users[u].phase.Releasing? && l in s.users[u].acquired
            case ReleaseInTransit => false
  {
    if place.At? {
      assert !WillRelease(s.users[place.user]) && Orderly(s.users[place.user]);
    }
  }

  // ---------- A live grant that will never be given back ----------

  /** A system with the one resource r and the one user u. */
  function Small(holder: Option<Request>, waiters: seq<Request>, inFlight: Option<Grant>, u: User,
        grants: map<Key, (WorkflowId, Resource)>, releases: map<Key, Resource>, issued: set<Key>): System
  {
    System(Pool(["r"], map["r" := holder], waiters, RebuildKeys(["r"], map["r" := holder]), inFlight),
           map["u" := u], multiset{"u"}, grants, releases, issued)
  }

  lemma SmallKeys(holder: Option<Request>)
    ensures RebuildKeys(["r"], map["r" := holder])
            == if holder.Some? && holder.value.releaseKey.Some? then map[holder.value.releaseKey.value := "r"]
               else map[]
  {
    assert ["r"][..0] == [] && RebuildKeys([], map["r" := holder]) == map[];
  }

  lemma SmallStart(ws: seq<Request>)
    requires ws == [Request("u", None), Request("u", None), Request("w", None)]
    ensures var s := Initial(["r"], ["u", "u", "w"]); var e := StartUser("u", Input(None, false, None));
            Run(s, [e]) && Exec(s, [e]) == Small(None, ws, None, Begin(Input(None, false, None)), map[], map[], {})
  {
    var names := ["u", "u", "w"];
    var requests := seq(|names|, i requires 0 <= i < |names| => Request(names[i], None));
    assert requests == ws;
    var empty := Pool([], map[], requests, map[], None);
    assert ["r"][1..] == [] && AddResources(AddResource(empty, "r"), []) == AddResource(empty, "r");
    SmallKeys(None);
    RunOne(Initial(["r"], names), StartUser("u", Input(None, false, None)), []);
  }

  /** r is assigned to u under k, accepted and delivered. */
  lemma SmallGrant(waiters: seq<Request>, u: User, k: Key, issued: set<Key>)
    requires waiters != [] && waiters[0].workflow == "u" && k !in issued && (u.phase.Waiting? || u.phase.Releasing?)
    ensures var s := Small(None, waiters, None, u, map[], map[], issued);
            var es := [Assign(k), AssignAccepted, DeliverGrant(k)];
            Run(s, es)
            && Exec(s, es) == Small(Some(Request("u", Some(k))), waiters[1..], None, Receive(u, Lock("r", k)), map[],
                                    map[], issued + {k})
  {
    SmallKeys(None);
    SmallKeys(Some(Request("u", Some(k))));
    assert FirstFree(["r"], map["r" := None]) == Some("r");
    assert map[k := ("u", "r")] - {k} == map[];
    var s := Small(None, waiters, None, u, map[], map[], issued);
    var s1 := Small(None, waiters[1..], Some(Grant("r", "u", k)), u, map[k := ("u", "r")], map[], issued + {k});
    var s2 := Small(Some(Request("u", Some(k))), waiters[1..], None, u, map[k := ("u", "r")], map[], issued + {k});
    assert Enabled(s, Assign(k)) && Apply(s, Assign(k)) == s1;
    assert Apply(s1, AssignAccepted) == s2;
    RunThree(s, Assign(k), AssignAccepted, DeliverGrant(k));
  }

  lemma SmallStep(holder: Option<Request>, waiters: seq<Request>, u: User, step: UserEvent,
        released: map<Key, Resource>, issued: set<Key>)
    requires CanHappen(u, step) && !step.Received? && NewRelease(u, Happen(u, step)) == released
    ensures var s := Small(holder, waiters, None, u, map[], map[], issued);
            Enabled(s, UserStep("u", step))
            && Apply(s, UserStep("u", step))
               == Small(holder, waiters, None, Happen(u, step), map[], released, issued)
  {
    assert map[] + released == released;
  }

  /** u takes r, fails, and its release is delivered. */
  lemma SmallRelease(waiters: seq<Request>, u: User, k: Key, issued: set<Key>)
    requires u == Receive(Begin(Input(None, false, None)), Lock("r", k))
    ensures var s := Small(Some(Request("u", Some(k))), waiters, None, u, map[], map[], issued);
            var es := [UserStep("u", Took), UserStep("u", Failed), DeliverRelease(k)];
            Run(s, es) && Exec(s, es) == Small(None, waiters, None, Unlock(Take(u)), map[], map[], issued)
  {
    SmallKeys(None);
    SmallKeys(Some(Request("u", Some(k))));
    assert u.acquired == [Lock("r", k)];
    assert NewRelease(u, Take(u)) == map[];
    assert NewRelease(Take(u), Unlock(Take(u))) == map[k := "r"];
    assert map[k := "r"] - {k} == map[];
    var h := Some(Request("u", Some(k)));
    var s := Small(h, waiters, None, u, map[], map[], issued);
    var s1 := Small(h, waiters, None, Take(u), map[], map[], issued);
    var s2 := Small(h, waiters, None, Unlock(Take(u)), map[], map[k := "r"], issued);
    SmallStep(h, waiters, u, Took, map[], issued);
    SmallStep(h, waiters, Take(u), Failed, map[k := "r"], issued);
    RunThree(s, UserStep("u", Took), UserStep("u", Failed), DeliverRelease(k));
  }

  /**
   That every resource has a live grant is not enough: here u is granted r for a second request of
   its while it is releasing what the first one obtained, and w waits for ever.
   */
  lemma AllLiveNotEnough() returns (es: seq<Event>)
    ensures Run(Initial(["r"], ["u", "u", "w"]), es)
    ensures var s := Exec(Initial(["r"], ["u", "u", "w"]), es);
            AllLive(s) && s.pool.waiters == [Request("w", None)] && s.pool.order == ["r"] && !Recoverable(s)
  {
    var ws := [Request("u", None), Request("u", None), Request("w", None)];
    var u0 := Begin(Input(None, false, None));
    var u1 := Receive(u0, Lock("r", "k"));
    var u3 := Unlock(Take(u1));
    var s := Initial(["r"], ["u", "u", "w"]);
    var start := [StartUser("u", Input(None, false, None))];
    var first := [Assign("k"), AssignAccepted, DeliverGrant("k")];
    var release := [UserStep("u", Took), UserStep("u", Failed), DeliverRelease("k")];
    var second := [Assign("l"), AssignAccepted, DeliverGrant("l")];
    SmallStart(ws);
    SmallGrant(ws, u0, "k", {});
    Join(s, start, first);
    SmallRelease(ws[1..], u1, "k", {} + {"k"});
    Join(s, start + first, release);
    SmallGrant(ws[1..], u3, "l", {} + {"k"});
    Join(s, start + first + release, second);
    es := start + first + release + second;
    LastIsHopeless(Exec(s, es), ws[1..][1..], Receive(u3, Lock("r", "l")), {} + {"k"} + {"l"});
  }

  lemma LastIsHopeless(s: System, waiters: seq<Request>, u: User, issued: set<Key>)
    requires s == Small(Some(Request("u", Some("l"))), waiters, None, u, map[], map[], issued)
    requires u.phase.Releasing? && u.acquired == [Lock("r", "l")]
    ensures AllLive(s) && !Recoverable(s)
  {
    assert Locks(u)[0] == Lock("r", "l");
    assert IsAt(s, Lock("r", "l"), At("u", 0));
    assert forall r | Owner(s.pool, r).Some? :: r == "r" && Owner(s.pool, r).value == ("u", "l");
  }
}
