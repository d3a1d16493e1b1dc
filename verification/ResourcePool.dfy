/**
 The state of ResourcePoolWorkflow between two awaits, and what each handler and each stretch
 of its run loop does to it (resource_pool/pool_client/resource_pool_workflow.py).
 */
module ResourcePool {
  import opened Wrappers

  type Resource = string
  type WorkflowId = string
  type Key = string

  /** A request for a resource; its release key is set once the resource has been assigned. */
  datatype Request = Request(workflow: WorkflowId, releaseKey: Option<Key>)

  /** The one assignment whose signal to the requester is being awaited. */
  datatype Grant = Grant(resource: Resource, workflow: WorkflowId, key: Key)

  /** order lists the keys of the dictionary of resources in insertion order. */
  datatype Pool = Pool(
    order: seq<Resource>,
    holders: map<Resource, Option<Request>>,
    waiters: seq<Request>,
    keys: map<Key, Resource>,
    inFlight: Option<Grant>)

  // ---------- Handlers ----------

  function AddResource(p: Pool, r: Resource): Pool {
    if r in p.holders then p else p.(order := p.order + [r], holders := p.holders[r := None])
  }

  function AddResources(p: Pool, rs: seq<Resource>): Pool
    decreases |rs|
  {
    if rs == [] then p else AddResources(AddResource(p, rs[0]), rs[1..])
  }

  function Acquire(p: Pool, workflow: WorkflowId): Pool {
    p.(waiters := p.waiters + [Request(workflow, None)])
  }

  predicate IsHeld(p: Pool, r: Resource) {
    r in p.holders && p.holders[r].Some?
  }

  /** An unknown key is ignored, and so would be the key of a resource that is not held. */
  function Release(p: Pool, key: Key): Pool {
    if key !in p.keys || !IsHeld(p, p.keys[key]) then p
    else p.(holders := p.holders[p.keys[key] := None], keys := p.keys - {key})
  }

  // ---------- The run loop ----------

  predicate IsFree(p: Pool, r: Resource) {
    r in p.holders && p.holders[r].None?
  }

  /** The first free resource in insertion order. */
  function FirstFree(order: seq<Resource>, holders: map<Resource, Option<Request>>): (r: Option<Resource>)
    ensures r.Some? ==> r.value in order && r.value in holders && holders[r.value].None?
    ensures r.None? ==> forall x | x in order && x in holders :: holders[x].Some?
  {
    if order == [] then None
    else if order[0] in holders && holders[order[0]].None? then Some(order[0])
    else FirstFree(order[1..], holders)
  }

  /** Every resource listed before the one chosen is held. */
  lemma {:induction false} FirstFreeIsFirst(order: seq<Resource>, holders: map<Resource,
        Option<Request>>) returns (i: nat)
    requires FirstFree(order, holders).Some? && forall x | x in order :: x in holders
    ensures i < |order| && order[i] == FirstFree(order, holders).value
    ensures forall j | 0 <= j < i :: holders[order[j]].Some?
    decreases |order|
  {
    i := 0;
    if holders[order[0]].Some? {
      i := FirstFreeIsFirst(order[1..], holders);
      i := i + 1;
    }
  }

  predicate CanAssign(p: Pool) {
    p.waiters != [] && FirstFree(p.order, p.holders).Some?
  }

  /** Takes the first waiter and sends it the first free resource under a fresh key. */
  function BeginAssign(p: Pool, key: Key): Pool
    requires p.inFlight.None? && CanAssign(p)
  {
    var r := FirstFree(p.order, p.holders).value;
    p.(waiters := p.waiters[1..], inFlight := Some(Grant(r, p.waiters[0].workflow, key)))
  }

  /** The signal was accepted: the pool now knows the holder and its key. */
  function Register(p: Pool): Pool
    requires p.inFlight.Some?
  {
    var g := p.inFlight.value;
    p.(holders := p.holders[g.resource := Some(Request(g.workflow, Some(g.key)))],
       keys := p.keys[g.key := g.resource],
       inFlight := None)
  }

  /** The requester was not found: it is dropped and the resource stays free. */
  function Drop(p: Pool): Pool
    requires p.inFlight.Some?
  {
    p.(inFlight := None)
  }

  /** The keys that __init__ reads off the holders it is given. */
  function RebuildKeys(order: seq<Resource>, holders: map<Resource, Option<Request>>): map<Key, Resource>
    decreases |order|
  {
    if order == [] then map[]
    else
      var m := RebuildKeys(order[..|order| - 1], holders);
      var r := order[|order| - 1];
      if r in holders && holders[r].Some? && holders[r].value.releaseKey.Some?
      then m[holders[r].value.releaseKey.value := r]
      else m
  }

  /** Continue-as-new: only the resources and the waiters are handed to the next run. */
  function Restart(p: Pool): Pool {
    Pool(p.order, p.holders, p.waiters, RebuildKeys(p.order, p.holders), None)
  }

  function NewPool(resources: seq<Resource>, waiting: seq<WorkflowId>): Pool {
    AddResources(
      Pool([], map[], seq(|waiting|, i requires 0 <= i < |waiting| => Request(waiting[i], None)), map[], None),
      resources)
  }

  // ---------- The invariant ----------

  /**
   The key map is exactly the inverse of the held resources, and a resource in flight is free until
   it is registered.
   */
  ghost predicate Consistent(p: Pool) {
    && Lists(p.order, p.holders.Keys)
    && (forall r | r in p.holders && p.holders[r].Some? :: KeyRegistered(p, r))
    && (forall k | k in p.keys :: p.keys[k] in p.holders && p.holders[p.keys[k]].Some?
                                  && p.holders[p.keys[k]].value.releaseKey == Some(k))
    && (p.inFlight.Some? ==> IsFree(p, p.inFlight.value.resource) && p.inFlight.value.key !in p.keys)
  }

  /** The order names every resource once. */
  ghost predicate Lists(order: seq<Resource>, resources: set<Resource>) {
    && (forall i, j | 0 <= i < j < |order| :: order[i] != order[j])
    && (forall r :: r in order <==> r in resources)
  }

  predicate KeyRegistered(p: Pool, r: Resource)
    requires r in p.holders && p.holders[r].Some?
  {
    && p.holders[r].value.releaseKey.Some?
    && p.holders[r].value.releaseKey.value in p.keys
    && p.keys[p.holders[r].value.releaseKey.value] == r
  }

  /** Who the pool has given r to, registered already or not yet. */
  function Owner(p: Pool, r: Resource): Option<(WorkflowId, Key)> {
    if p.inFlight.Some? && p.inFlight.value.resource == r then
      Some((p.inFlight.value.workflow, p.inFlight.value.key))
    else if r in p.holders && p.holders[r].Some? && p.holders[r].value.releaseKey.Some? then
      Some((p.holders[r].value.workflow, p.holders[r].value.releaseKey.value))
    else None
  }

  // ---------- What each operation keeps and changes ----------

  lemma ListsOneMore(order: seq<Resource>, resources: set<Resource>, r: Resource)
    requires Lists(order, resources) && r !in resources
    ensures Lists(order + [r], resources + {r})
  {
    assert forall i | 0 <= i < |order| :: order[i] in order;
  }

  lemma AddResourceKeeps(p: Pool, r: Resource)
    requires Consistent(p)
    ensures Consistent(AddResource(p, r))
  {
    if r !in p.holders {
      var q := AddResource(p, r);
      ListsOneMore(p.order, p.holders.Keys, r);
      assert q.holders.Keys == p.holders.Keys + {r};
      assert forall x | x in q.holders && q.holders[x].Some? :: KeyRegistered(p, x);
    }
  }

  lemma {:induction false} AddResourcesKeeps(p: Pool, rs: seq<Resource>)
    requires Consistent(p)
    ensures Consistent(AddResources(p, rs))
    decreases |rs|
  {
    if rs != [] {
      AddResourceKeeps(p, rs[0]);
      AddResourcesKeeps(AddResource(p, rs[0]), rs[1..]);
    }
  }

  /** Adding resources adds the new ones, free, at the end of the order, and changes nothing else. */
  lemma {:induction false} AddResourcesEffect(p: Pool, rs: seq<Resource>)
    ensures var q := AddResources(p, rs);
            && q.waiters == p.waiters && q.keys == p.keys && q.inFlight == p.inFlight
            && p.order <= q.order
            && q.holders.Keys == p.holders.Keys + (set r | r in rs)
            && (forall r | r in q.holders :: q.holders[r] == if r in p.holders then p.holders[r] else None)
    decreases |rs|
  {
    if rs != [] {
      AddResourcesEffect(AddResource(p, rs[0]), rs[1..]);
      assert (set r | r in rs) == {rs[0]} + set r | r in rs[1..];
    }
  }

  /** Where a resource stands first in a list. */
  function FirstAt(rs: seq<Resource>, r: Resource): (i: nat)
    requires r in rs
    ensures i < |rs| && rs[i] == r
  {
    if rs[0] == r then 0 else 1 + FirstAt(rs[1..], r)
  }

  /** The new resources come after the known ones, in the order in which they are first listed. */
  lemma {:induction false} AddResourcesInOrder(p: Pool, rs: seq<Resource>)
    requires forall r :: r in p.order <==> r in p.holders
    ensures var q := AddResources(p, rs);
            && p.order <= q.order
            && (forall i | |p.order| <= i < |q.order| :: q.order[i] in rs && q.order[i] !in p.holders)
            && (forall i, j | |p.order| <= i < j < |q.order| ::
                  q.order[i] in rs && q.order[j] in rs && FirstAt(rs, q.order[i]) < FirstAt(rs, q.order[j]))
    decreases |rs|
  {
    if rs != [] {
      var p1 := AddResource(p, rs[0]);
      AddResourcesInOrder(p1, rs[1..]);
      var q := AddResources(p, rs);
      forall i | |p.order| <= i < |q.order|
        ensures q.order[i] in rs && q.order[i] !in p.holders
      {
        assert i >= |p1.order| ==> q.order[i] in rs[1..];
      }
    }
  }

  lemma NewPoolConsistent(resources: seq<Resource>, waiting: seq<WorkflowId>)
    ensures var p := NewPool(resources, waiting);
            && Consistent(p) && p.inFlight.None? && p.keys == map[]
            && p.holders.Keys == (set r | r in resources)
            && (forall r | r in p.holders :: IsFree(p, r))
            && |p.waiters| == |waiting|
            && (forall i | 0 <= i < |waiting| :: p.waiters[i] == Request(waiting[i], None))
  {
    var requests := seq(|waiting|, i requires 0 <= i < |waiting| => Request(waiting[i], None));
    var empty := Pool([], map[], requests, map[], None);
    assert Consistent(empty);
    AddResourcesKeeps(empty, resources);
    AddResourcesEffect(empty, resources);
  }

  lemma ReleaseKeeps(p: Pool, key: Key)
    requires Consistent(p)
    ensures Consistent(Release(p, key))
  {
    if key in p.keys {
      var q := Release(p, key);
      assert q.holders.Keys == p.holders.Keys;
      forall x | x in q.holders && q.holders[x].Some?
        ensures KeyRegistered(q, x)
      {
        assert KeyRegistered(p, x);
      }
    }
  }

  /**
   A release frees the resource of a registered key and no other; the branch for a resource not held
   is never taken.
   */
  lemma ReleaseEffect(p: Pool, key: Key, r: Resource)
    requires Consistent(p) && r in p.holders
    ensures key in p.keys ==> IsHeld(p, p.keys[key])
    ensures var q := Release(p, key);
            && q.inFlight == p.inFlight && q.waiters == p.waiters && q.holders.Keys == p.holders.Keys
            && q.holders[r] == (if key in p.keys && p.keys[key] == r then None else p.holders[r])
            && Owner(q, r) == (if key in p.keys && p.keys[key] == r then None else Owner(p, r))
  {
  }

  /** Only a waiting request obtains a resource, and only a free one. */
  lemma BeginAssignEffect(p: Pool, key: Key)
    requires Consistent(p) && p.inFlight.None? && CanAssign(p) && key !in p.keys
    ensures var q := BeginAssign(p, key); var r := q.inFlight.value.resource;
            && Consistent(q)
            && Owner(p, r).None?
            && (forall x :: Owner(q, x) == if x == r then Some((p.waiters[0].workflow, key)) else Owner(p, x))
            && p.waiters == [p.waiters[0]] + q.waiters
  {
    var q := BeginAssign(p, key);
    assert forall x | x in q.holders && q.holders[x].Some? :: KeyRegistered(p, x);
  }

  /** Registering changes no owner: it only makes the key known to the release handler. */
  lemma RegisterEffect(p: Pool)
    requires Consistent(p) && p.inFlight.Some?
    ensures Consistent(Register(p))
    ensures forall x :: Owner(Register(p), x) == Owner(p, x)
    ensures Register(p).keys.Keys == p.keys.Keys + {p.inFlight.value.key}
    ensures Register(p).waiters == p.waiters && Register(p).inFlight.None?
  {
    var q := Register(p);
    assert q.holders.Keys == p.holders.Keys;
    forall x | x in q.holders && q.holders[x].Some?
      ensures KeyRegistered(q, x)
    {
      if x != p.inFlight.value.resource {
        assert KeyRegistered(p, x);
      }
    }
  }

  lemma DropEffect(p: Pool)
    requires Consistent(p) && p.inFlight.Some?
    ensures Consistent(Drop(p))
    ensures Drop(p).holders == p.holders && Drop(p).order == p.order && Drop(p).keys == p.keys
    ensures Drop(p).waiters == p.waiters && IsFree(Drop(p), p.inFlight.value.resource)
    ensures forall x :: Owner(Drop(p), x) == if x == p.inFlight.value.resource then None else Owner(p, x)
  {
    var q := Drop(p);
    assert forall x | x in q.holders && q.holders[x].Some? :: KeyRegistered(p, x);
  }

  lemma AcquireEffect(p: Pool, workflow: WorkflowId)
    requires Consistent(p)
    ensures Consistent(Acquire(p, workflow))
    ensures forall x :: Owner(Acquire(p, workflow), x) == Owner(p, x)
  {
    var q := Acquire(p, workflow);
    assert forall x | x in q.holders && q.holders[x].Some? :: KeyRegistered(p, x);
  }

  // ---------- Continue-as-new ----------

  lemma {:induction false} RebuiltKeys(p: Pool, n: nat)
    requires Consistent(p) && n <= |p.order|
    ensures var m := RebuildKeys(p.order[..n], p.holders);
            && (forall k | k in m :: k in p.keys && m[k] == p.keys[k] && m[k] in p.order[..n])
            && (forall k | k in p.keys && p.keys[k] in p.order[..n] :: k in m)
    decreases n
  {
    if n > 0 {
      RebuiltKeys(p, n - 1);
      var r := p.order[n - 1];
      assert p.order[..n][..n - 1] == p.order[..n - 1];
      assert p.order[..n] == p.order[..n - 1] + [r];
      assert r in p.holders;
      var before := RebuildKeys(p.order[..n - 1], p.holders);
      if p.holders[r].Some? {
        assert KeyRegistered(p, r);
        var key := p.holders[r].value.releaseKey.value;
        assert RebuildKeys(p.order[..n], p.holders) == before[key := r];
      } else {
        assert RebuildKeys(p.order[..n], p.holders) == before;
      }
    }
  }

  /** With no grant in flight, handing over the resources and the waiters loses nothing. */
  lemma RestartIsIdentity(p: Pool)
    requires Consistent(p) && p.inFlight.None?
    ensures Restart(p) == p
  {
    RebuiltKeys(p, |p.order|);
    assert p.order[..|p.order|] == p.order;
  }

  // ---------- Work conservation ----------

  /** When the loop has nothing to assign, no request waits while a resource is free. */
  lemma NothingIdle(p: Pool)
    requires Consistent(p)
    ensures CanAssign(p) <==> p.waiters != [] && exists r :: IsFree(p, r)
  {
    var f := FirstFree(p.order, p.holders);
    if f.Some? {
      assert IsFree(p, f.value);
    } else {
      assert forall r | IsFree(p, r) :: r in p.order;
    }
  }
}
