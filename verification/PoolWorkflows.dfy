/** The workflows of the resource pool as objects: every method is one stretch of code between two awaits. */
module PoolWorkflows {
  import opened Wrappers
  import opened ResourcePool
  import User = ResourceUser

  /** What the run loop does next, after one of its stretches of code. */
  datatype LoopAction =
    | AwaitSignal(grant: Grant)
    | AwaitCondition
    | ContinueAsNew(order: seq<Resource>, resources: map<Resource, Option<Request>>, waiters: seq<Request>)

  class ResourcePoolWorkflow {
    var order: seq<Resource>
    var resources: map<Resource, Option<Request>>
    var waiters: seq<Request>
    var releaseKeyToResource: map<Key, Resource>
    var assigning: Option<Grant>

    ghost function View(): Pool
      reads this
    {
      Pool(order, resources, waiters, releaseKeyToResource, assigning)
    }

    constructor (order: seq<Resource>, resources: map<Resource, Option<Request>>, waiters: seq<Request>)
      ensures View() == Pool(order, resources, waiters, RebuildKeys(order, resources), None)
    {
      this.order := order;
      this.resources := resources;
      this.waiters := waiters;
      this.releaseKeyToResource := map[];
      this.assigning := None;
      new;
      var i := 0;
      while i < |order|
        invariant 0 <= i <= |order|
        invariant this.order == order && this.resources == resources && this.waiters == waiters && assigning == None
        invariant releaseKeyToResource == RebuildKeys(order[..i], resources)
      {
        var r := order[i];
        assert order[..i + 1][..i] == order[..i];
        if r in resources && resources[r].Some? && resources[r].value.releaseKey.Some? {
          releaseKeyToResource := releaseKeyToResource[resources[r].value.releaseKey.value := r];
        }
        i := i + 1;
      }
      assert order[..i] == order;
    }

    /** Unknown resources enter free, at the end of the order; nobody's resource is touched. */
    method AddResources(rs: seq<Resource>)
      requires Consistent(View())
      modifies this
      ensures View() == ResourcePool.AddResources(old(View()), rs)
      ensures Consistent(View())
      ensures resources.Keys == old(resources.Keys) + (set r | r in rs) && old(order) <= order
      ensures forall r | r in resources :: resources[r] == if r in old(resources) then old(resources)[r] else None
    {
      AddResourcesKeeps(View(), rs);
      AddResourcesEffect(View(), rs);
      var i := 0;
      while i < |rs|
        invariant 0 <= i <= |rs|
        invariant ResourcePool.AddResources(View(), rs[i..]) == ResourcePool.AddResources(old(View()), rs)
      {
        assert rs[i..][1..] == rs[i + 1..];
        if rs[i] !in resources {
          order := order + [rs[i]];
          resources := resources[rs[i] := None];
        }
        i := i + 1;
      }
    }

    /** The request joins the end of the queue, and no owner changes. */
    method AcquireResource(workflow: WorkflowId)
      requires Consistent(View())
      modifies this
      ensures View() == Acquire(old(View()), workflow)
      ensures Consistent(View()) && forall r :: Owner(View(), r) == old(Owner(View(), r))
    {
      AcquireEffect(View(), workflow);
      waiters := waiters + [Request(workflow, None)];
    }

    /** The test for a resource that is not held can never succeed. */
    method ReleaseResource(key: Key)
      requires Consistent(View())
      modifies this
      ensures View() == Release(old(View()), key)
      ensures Consistent(View()) && key !in releaseKeyToResource
      ensures key in old(releaseKeyToResource) ==> IsFree(View(), old(releaseKeyToResource)[key])
    {
      ReleaseKeeps(View(), key);
      if key !in releaseKeyToResource {
        return;
      }
      var r := releaseKeyToResource[key];
      assert IsHeld(View(), r);
      resources := resources[r := None];
      releaseKeyToResource := releaseKeyToResource - {key};
    }

    method GetFreeResource() returns (r: Option<Resource>)
      ensures r == FirstFree(order, resources)
    {
      var i := 0;
      while i < |order|
        invariant 0 <= i <= |order|
        invariant FirstFree(order[i..], resources) == FirstFree(order, resources)
      {
        assert order[i..][1..] == order[i + 1..];
        if order[i] in resources && resources[order[i]].None? {
          return Some(order[i]);
        }
        i := i + 1;
      }
      r := None;
    }

    /** assign_next_resource up to its await: the requester at the head of the queue is sent the first free resource. */
    method AssignNextResource(key: Key) returns (granted: bool)
      requires assigning.None?
      modifies this
      ensures granted == CanAssign(old(View()))
      ensures View() == if granted then BeginAssign(old(View()), key) else old(View())
    {
      if |waiters| == 0 {
        return false;
      }
      var next := GetFreeResource();
      if next.None? {
        return false;
      }
      var waiter := waiters[0];
      waiters := waiters[1..];
      assigning := Some(Grant(next.value, waiter.workflow, key));
      granted := true;
    }

    /** The loop has been woken: it assigns while it can, and continues as new only when it cannot. */
    method Wake(key: Key, continueSuggested: bool) returns (action: LoopAction)
      requires assigning.None? && Consistent(View()) && key !in releaseKeyToResource
      modifies this
      ensures Consistent(View())
      ensures action.AwaitSignal? <==> CanAssign(old(View()))
      ensures action.AwaitSignal? ==> View() == BeginAssign(old(View()), key) && assigning == Some(action.grant)
      ensures !action.AwaitSignal? ==> View() == old(View()) && (waiters == [] || forall r :: !IsFree(View(), r))
      ensures action.ContinueAsNew? ==>
                NewRun(action.order, action.resources, action.waiters) == old(View())
      ensures action.ContinueAsNew? <==> !CanAssign(old(View())) && continueSuggested
    {
      NothingIdle(View());
      RestartIsIdentity(View());
      var granted := AssignNextResource(key);
      if granted {
        BeginAssignEffect(old(View()), key);
        action := AwaitSignal(assigning.value);
      } else if continueSuggested {
        action := ContinueAsNew(order, resources, waiters);
      } else {
        action := AwaitCondition;
      }
    }

    /** The requester accepted the signal. */
    method SignalAccepted()
      requires assigning.Some? && Consistent(View())
      modifies this
      ensures View() == Register(old(View()))
      ensures Consistent(View()) && forall r :: Owner(View(), r) == old(Owner(View(), r))
      ensures var g := old(assigning).value; IsHeld(View(), g.resource) && IsFree(Release(View(), g.key), g.resource)
    {
      RegisterEffect(View());
      var g := assigning.value;
      resources := resources[g.resource := Some(Request(g.workflow, Some(g.key)))];
      releaseKeyToResource := releaseKeyToResource[g.key := g.resource];
      assigning := None;
    }

    /** The requester does not exist: it has lost its place, and the resource is free for the next one. */
    method SignalNotFound()
      requires assigning.Some? && Consistent(View())
      modifies this
      ensures View() == Drop(old(View()))
      ensures Consistent(View()) && IsFree(View(), old(assigning).value.resource)
      ensures waiters == old(waiters)
    {
      DropEffect(View());
      assigning := None;
    }
  }

  /** What __init__ makes of the input of a run. */
  function NewRun(order: seq<Resource>, resources: map<Resource, Option<Request>>, waiters: seq<Request>): Pool {
    Pool(order, resources, waiters, RebuildKeys(order, resources), None)
  }

  /** The client of one run: the resources it has been sent and not yet used. */
  class ResourcePoolClient {
    var acquiredResources: seq<User.Lock>

    constructor ()
      ensures acquiredResources == []
    {
      acquiredResources := [];
    }

    method HandleAcquireResponse(lock: User.Lock)
      modifies this
      ensures acquiredResources == old(acquiredResources) + [lock]
    {
      acquiredResources := acquiredResources + [lock];
    }

    method PopFirst() returns (lock: User.Lock)
      requires acquiredResources != []
      modifies this
      ensures [lock] + acquiredResources == old(acquiredResources)
    {
      lock := acquiredResources[0];
      acquiredResources := acquiredResources[1..];
    }
  }

  /** One run of the user with its client; a run that continues as new is followed by another object. */
  class ResourceUserRun {
    const client: ResourcePoolClient
    var input: User.Input
    var phase: User.Phase
    var sent: seq<User.Signal>
    ghost const sentBefore: seq<User.Signal>     // by the earlier runs of the chain
    ghost var taken: Option<User.Lock>

    ghost function View(): User.User
      reads this, client
    {
      User.User(input, phase, client.acquiredResources, sentBefore + sent, taken)
    }

    /** A run without a lock asks for one; a run that was handed one asks for nothing and goes straight to work. */
    constructor (input: User.Input, ghost before: User.User)
      requires input.reattach.Some? ==> before.phase.Detached? && before.input == input
      ensures fresh(client)
      ensures sent == if input.reattach.None? then [User.AcquireSent] else []
      ensures View() == if input.reattach.None? then User.Begin(input) else User.Resume(before)
    {
      client := new ResourcePoolClient();
      this.input := input;
      if input.reattach.None? {
        sent := [User.AcquireSent];
        sentBefore := [];
        phase := User.Waiting;
        taken := None;
      } else {
        sent := [];
        sentBefore := before.sent;
        phase := User.Using(input.reattach.value, User.First);
        taken := before.taken;
      }
    }

    method AssignmentReceived(lock: User.Lock)
      requires !User.Ended(View()) && User.Orderly(View())
      modifies client
      ensures View() == User.Receive(old(View()), lock)
      ensures User.Orderly(View()) && lock in User.Locks(View())
    {
      client.HandleAcquireResponse(lock);
    }

    method WaitEnded()
      requires phase.Waiting? && client.acquiredResources != [] && User.Orderly(View())
      modifies this, client
      ensures View() == User.Take(old(View()))
      ensures User.Orderly(View()) && User.Locks(View()) == old(User.Locks(View()))
    {
      var lock := client.PopFirst();
      phase := User.Using(lock, User.First);
      taken := Some(lock);
    }

    /** The finally block, after a failure or at the end of the work. */
    method Unlock()
      requires phase.Using? && User.Orderly(View())
      modifies this
      ensures View() == User.Unlock(old(View()))
      ensures User.Orderly(View())
      ensures sent == old(sent) + [User.ReleaseSent(taken.value)] && User.Locks(View()) == client.acquiredResources
    {
      sent := sent + [User.ReleaseSent(phase.lock)];
      phase := User.Releasing;
    }

    method ActivityDone()
      requires phase.Using? && User.Orderly(View())
      modifies this, client
      ensures View() == User.ActivityDone(old(View()))
      ensures User.Orderly(View())
      ensures phase.Releasing? || sent == old(sent)
      ensures phase.Detached? ==> input.reattach == taken && User.Locks(View()) == [taken.value]
    {
      if input.failAfter == Some(User.IterationName(phase.iteration)) {
        Unlock();
      } else if phase.iteration.First? {
        phase := User.Using(phase.lock, User.Second);
      } else if input.continueAsNew {
        input := User.Input(input.failAfter, false, Some(phase.lock));
        phase := User.Detached(phase.lock);
        client.acquiredResources := [];
      } else {
        Unlock();
      }
    }
  }
}
