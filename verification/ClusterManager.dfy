/**
 ClusterManagerWorkflow as an object. Each operation is two methods, one up to the await of its
 activity and one after it; both run while its handler holds nodes_lock.
 */
module ClusterManager {
  import opened Wrappers
  import opened Cluster
  import ClusterSystem

  class ClusterManagerWorkflow {
    var order: seq<Node>
    var nodes: map<Node, Option<string>>
    var jobsAssigned: set<Job>
    var clusterStarted: bool
    var clusterShutdown: bool

    ghost function View(): State
      reads this
    {
      State(order, nodes, jobsAssigned, clusterStarted, clusterShutdown)
    }

    constructor ()
      ensures View() == ClusterSystem.Initial().cluster
    {
      order, nodes, jobsAssigned, clusterStarted, clusterShutdown := [], map[], {}, false, false;
    }

    /** The cluster is up: every node is free, and a repeated node id counts once. */
    method StartCluster(ids: seq<Node>)
      modifies this
      ensures View() == old(View()).(order := ClusterSystem.Distinct(ids), nodes := ClusterSystem.Slots(ids),
                                     started := true)
      ensures forall k | k in nodes :: nodes[k] == None
    {
      order, nodes := [], map[];
      var i := 0;
      while i < |ids|
        invariant 0 <= i <= |ids|
        invariant order == ClusterSystem.Distinct(ids[..i])
        invariant nodes == ClusterSystem.Slots(ids[..i])
        invariant jobsAssigned == old(jobsAssigned) && clusterShutdown == old(clusterShutdown)
      {
        ClusterSystem.OneMoreNode(ids, i);
        if ids[i] !in nodes {
          order := order + [ids[i]];
        }
        nodes := nodes[ids[i] := None];
        i := i + 1;
      }
      assert ids[..i] == ids;
      clusterStarted := true;
    }

    method GetUnassignedNodes() returns (free: seq<Node>)
      ensures free == UnassignedNodes(View())
    {
      free := NodesWithSlot(None);
    }

    method NodesWithSlot(slot: Option<string>) returns (ns: seq<Node>)
      ensures ns == Where(order, nodes, slot)
    {
      ns := [];
      var i := 0;
      while i < |order|
        invariant 0 <= i <= |order|
        invariant ns == Where(order[..i], nodes, slot)
      {
        WhereOneMore(order, nodes, slot, i);
        if order[i] in nodes && nodes[order[i]] == slot {
          ns := ns + [order[i]];
        }
        i := i + 1;
      }
      assert order[..i] == order;
    }

    method GetAssignedNodes(job: Option<Job>) returns (ns: set<Node>)
      requires Valid(View())
      ensures ns == AssignedNodes(View(), job)
    {
      ns := {};
      var i := 0;
      while i < |order|
        invariant 0 <= i <= |order|
        invariant ns == set k | k in order[..i] && k in AssignedNodes(View(), job)
      {
        assert order[..i + 1] == order[..i] + [order[i]];
        assert order[i] in nodes;
        var slot := nodes[order[i]];
        if job.Some? && job.value != "" {
          if slot == job {
            ns := ns + {order[i]};
          }
        } else if slot.Some? && slot.value != BAD {
          ns := ns + {order[i]};
        }
        i := i + 1;
      }
      assert order[..i] == order;
    }

    /**
     Under the lock: a known job is answered at once, too few nodes are refused, else the nodes for
     the activity are chosen.
     */
    method BeginAssign(total: int, job: Job) returns (finding: Finding)
      requires Valid(View())
      ensures finding == Look(View(), Assign(total, job))
      ensures job in jobsAssigned && job != "" ==> finding == Immediate(Assigned(NodesWith(View(), job)))
      ensures finding.Proceed? ==> finding.nodes <= FreeNodes(View()) && (total >= 0 ==> |finding.nodes| == total)
    {
      if job in jobsAssigned {
        var ns := GetAssignedNodes(Some(job));
        return Immediate(Assigned(ns));
      }
      var free := GetUnassignedNodes();
      if |free| < total {
        return Immediate(NotEnough(|free|));
      }
      finding := Proceed(Elements(Prefix(free, total)));
      AssignTakesFree(View(), total, job);
    }

    /** The activity has succeeded; the lock has kept the ledger as it was read. */
    method FinishAssign(total: int, job: Job, chosen: set<Node>) returns (outcome: Outcome)
      requires Valid(View()) && Look(View(), Assign(total, job)) == Proceed(chosen)
      modifies this
      ensures View() == Write(old(View()), Assign(total, job), chosen, {})
      ensures Valid(View())
      ensures Atomically(old(View()), Assign(total, job), View(), outcome)
    {
      AssignTakesFree(View(), total, job);
      WriteKeepsValid(View(), Assign(total, job), chosen, {});
      SetSlots(chosen, Some(job));
      jobsAssigned := jobsAssigned + {job};
      var ns := GetAssignedNodes(Some(job));
      outcome := Assigned(ns);
      assert Succeeds(old(View()), Assign(total, job), View(), outcome);
    }

    method BeginDelete(job: Job) returns (finding: Finding)
      requires Valid(View())
      ensures finding == Look(View(), Delete(job)) == Proceed(NodesWith(View(), job))
    {
      var ns := NodesWithSlot(Some(job));
      DeleteAndCheckTargets(View(), job);
      finding := Proceed(Elements(ns));
    }

    method FinishDelete(job: Job, chosen: set<Node>)
      requires Valid(View()) && Look(View(), Delete(job)) == Proceed(chosen)
      modifies this
      ensures View() == Write(old(View()), Delete(job), chosen, {})
      ensures Valid(View())
      ensures Atomically(old(View()), Delete(job), View(), Deleted)
      ensures FreeNodes(View()) == old(FreeNodes(View()) + NodesWith(View(), job))
    {
      DeleteAndCheckTargets(View(), job);
      WriteKeepsValid(View(), Delete(job), chosen, {});
      DeleteFrees(View(), job);
      SetSlots(chosen, None);
      assert Succeeds(old(View()), Delete(job), View(), Deleted);
    }

    method BeginHealthCheck() returns (finding: Finding)
      requires Valid(View())
      ensures finding == Look(View(), HealthCheck) == Proceed(BusyNodes(View()))
    {
      var ns := GetAssignedNodes(None);
      finding := Proceed(ns);
    }

    /** The bad nodes reported are among those that were checked. */
    method FinishHealthCheck(checked: set<Node>, bad: set<Node>)
      requires Valid(View()) && Look(View(), HealthCheck) == Proceed(checked) && bad <= checked
      modifies this
      ensures View() == Write(old(View()), HealthCheck, checked, bad)
      ensures Valid(View())
      ensures Atomically(old(View()), HealthCheck, View(), Checked)
      ensures BadNodes(View()) == old(BadNodes(View())) + bad && FreeNodes(View()) == old(FreeNodes(View()))
    {
      WriteKeepsValid(View(), HealthCheck, checked, bad);
      CheckMarks(View(), bad);
      SetSlots(bad, Some(BAD));
      assert Succeeds(old(View()), HealthCheck, View(), Checked);
    }

    method SetSlots(ns: set<Node>, slot: Option<string>)
      requires ns <= nodes.Keys
      modifies this
      ensures View() == Mark(old(View()), ns, slot)
    {
      var rest := ns;
      while rest != {}
        invariant rest <= ns
        invariant View() == Mark(old(View()), ns - rest, slot)
        decreases |rest|
      {
        var node :| node in rest;
        nodes := nodes[node := slot];
        rest := rest - {node};
      }
      assert ns - rest == ns;
    }
  }
}
