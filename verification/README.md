# Verified models of the Temporal Python samples

This project models the workflows of the samples that are real concurrent protocols and proves
what they promise, for every input and every run:

- the **DSL interpreter** (`dsl/`): statements, their sequential reading, the interleaved execution
  of the interpreter's coroutines, and exactly when the two agree;
- the **resource pool** (`resource_pool/`): the pool workflow, its users with their clients, and
  the signals in transit between them;
- the **sliding-window batch** (`batch_sliding_window/`): the division into partitions, the
  continue-as-new chain of each partition, its children and their completion signals;
- the **cluster manager** (`message_passing/safe_message_handlers/`): handlers that read, await and
  write under a lock, against operations that happen all at once;
- the **exit and compensation race**
  (`message_passing/waiting_for_handlers_and_compensation/`) and the **updatable timer**
  (`updatable_timer/`).

## How the workflows are modelled

The code between two awaits is one step. Handlers run between steps in any order. Everything a
workflow does not control is an event that may happen at any time: an activity completing or
failing, a signal being delivered, a child reporting, the clock moving. A run is a sequence of
events, each enabled when it happens, and the main results quantify over all such sequences.
Continue-as-new is a step that rebuilds the workflow from the input it hands over.

Each core has two layers. A functional layer gives the state as a value and the effect of every
step as a function; the lemmas are about it. An object layer has the workflow as a class whose
fields the methods update in place, with the loops of the source; every method is proved to do to
its fields what the function says. `DslWorkflow`, `PoolWorkflows`, `BatchWorkflows` and
`ClusterManager` hold these classes; those of the timer and of the compensation race are at the end
of their modules.

Orders that the runtime does not guarantee are left free. DSL leaves may be scheduled and completed
in any order the program allows. Pool signals are delivered at most once, after any delay and in any
order; a grant may be lost when the run it was sent to has closed. Completion signals may be
repeated without limit. Handlers take the cluster's lock in any order, and may queue for it a moment
before they take it. What is proved of all these runs holds for the runs that do occur.

A result that says some run exists needs more. For the DSL, `asyncio.gather`
(`dsl/workflow.py:83-85`) starts all branches before any result of theirs can come in, so that the
runs that occur lie between two sets, defined in `DslGather`. In the *ordered* runs nothing below a
parallel node completes before the activities at the front of its branches are scheduled. In the
*eager* runs, where results come in one at a time, nothing completes while a ready activity is
unscheduled. Every eager run is ordered, and disagreeing runs are given as eager ones; results on
agreement cover all ordered ones. For the pool, `ServedIff` gives runs in which nothing is lost or
terminated and a requester is not found only when it has no open run. For the cluster,
`QueuedSurvivesShutdown` gives one for every order in which the queued operations take the lock.

Parameters stand for what is outside: activities are a function of their name and arguments,
release keys are fresh values, clock readings and health-check reports are arbitrary (a report names
nodes that were checked), and the record count is given.

## What the proofs found

- **DSL.** A race-free program ends with the variables of its sequential reading under every
  schedule. A program with a race need not have runs that disagree. A reader at the front of its
  branch is always scheduled before a concurrent writer completes, so it gets the initial value in
  every run, also where the sequential reading gives it the writer's result (`PairEnds`). When no
  two activities name the same result, the conditions are exact. All runs agree, whatever the
  activities compute, if and only if every activity that reads, for a result it stores, what a
  concurrent one writes is at the front of its branch (`DeterministicIff`). They agree with the
  sequential reading if and only if its branch comes first as well (`SequentialIff`). When two
  activities do name the same result, a race may be hidden (`HiddenRace`).
- **Pool.** Mutual exclusion holds without condition. "A released resource becomes free" does not: a
  release that is delivered before the pool has registered the grant is ignored, and the resource is
  then held by nobody for ever. `ReleaseFreesIffRegistered` says exactly when a release frees,
  `LeakIffForgotten` in which steps a grant is forgotten, `LeakIsPermanent` that it stays so, and
  `NoLeakIffNothingForgotten` that a run has no leak exactly when it has no such step. The sample's own README
  (`resource_pool/README.md`, Caveats) lists only timeouts, terminated workflows and missing workers
  as causes; the model follows the code, and has the termination of a user as one cause among four.
  That every resource has a live grant does not mean that a waiting request can be served: a user
  with two requests may be granted a resource while it is releasing another, and never gives it back
  (`AllLiveNotEnough`). `ServedIff` has the exact condition.
- **Batch.** The batch returns the record count with at least one partition. With a negative number of
  partitions, which the guard at `batch_sliding_window/batch_workflow.py:46` lets through, it starts
  nothing and returns zero: `CorrectIffPartitioned` has the exact condition. A partition has a
  returning run if and only if it has no records, or a positive page size, room for a child and an
  upper bound the loader accepts (`ReturnsIff`); without a positive page size it continues as new for
  ever. A planned batch can return if and only if the page size is positive or there is nothing to do
  (`BatchReturnsIff`), and then from every state it reaches.
- **Cluster.** An empty job name makes an assignment return the nodes of every job, and a job named
  `BAD!` cannot be told from a bad node: `FirstAssignExact` and `BadRecoversIff` are exact about both.
  A negative number of nodes takes all free nodes but that many (`AssignTakesFree`).
  An operation that has passed the shutdown test, and queues behind another one that holds the lock or
  holds it itself, can still write after shutdown (`QueuedSurvivesShutdown`, reached in
  `QueuedBehindHolder`); one that has not can only be refused (`AnsweredAfterShutdownIff`). A deleted
  job still counts as assigned, so assigning it again returns no nodes (`DeletedJobStaysEmpty`).
- **Compensation.** Because the wait returns at the first exception and otherwise only when both sides are
  done, an update whose task succeeds does not reply before the workflow's own logic has ended
  (`UpdatesAnswered`). The flag for compensated updates is also set by the workflow's compensation
  (`FlagMeaning`, `FlagWithoutUpdates`).

## Model

| member | source | states |
|---|---|---|
| DslConfluence.Confluence | dsl/workflow.py:63-85 | in a race-free program every complete interleaving of scheduling and completion steps ends with the variables of the left-to-right sequential reading |
| DslConfluence.FinishStable | dsl/workflow.py:63-85 | one step of a race-free program, taken anywhere in the tree, does not change what finishing the rest left to right yields |
| DslConfluence.FinishFrame | dsl/workflow.py:67-73 | storing variables that a statement neither reads nor writes commutes with finishing it |
| DslSequential.PairEnds | dsl/workflow.py:78-85 | two activities side by side, with different results, are both given initial values in every ordered run, whatever they compute; the sequential reading differs if and only if the first result changes a result that the second stores |
| DslDeterminism.DeterministicIff | dsl/workflow.py:63-85 | with distinct result names, all ordered runs agree, for all activities and variables, if and only if every activity that reads for a stored result what a concurrent one writes is at the front of its branch where their paths part; the eager runs decide the same |
| DslDeterminism.OrderedRunEnds | dsl/workflow.py:63-85 | every ordered run of such a program calls each activity that stores with the results of the writers sequentially ahead of it and initial values otherwise |
| DslSequential.SequentialIff | dsl/workflow.py:63-85 | with distinct result names, all ordered runs end as the sequential reading if and only if every such reader is at the front of its branch and earlier in the text than the writer; the eager runs decide the same |
| DslSequential.SequentialEnds | dsl/workflow.py:63-85 | read sequentially, each activity is called with the results of the writers earlier in the text and initial values otherwise |
| DslSequential.RaceFreeNoClash | dsl/workflow.py:78-85 | in a race-free program no activity reads what a concurrent one writes |
| DslGather.EagerIsOrdered | dsl/workflow.py:78-85 | where nothing completes while a ready activity is unscheduled, all branches of a parallel node have started before anything below it completes |
| DslGather.FrontsFirst | dsl/workflow.py:78-85 | an activity completes only after the concurrent ones at the front of their branches have been scheduled |
| DslSilent.SilentConfluence | dsl/workflow.py:67-85 | a program that is race-free in that sense ends with its sequential reading under every schedule |
| DslSilent.SameRuns | dsl/workflow.py:67-73 | removing the arguments of activities that store nothing changes neither the complete runs nor their results |
| DslRaces.RacesDisagree | dsl/workflow.py:78-85 | wherever an activity stores in a variable that a concurrent one reads, the reader is not at the front of its branch, and nobody else stores in either result, some activities make two eager runs disagree |
| DslSequential.HiddenRace | dsl/workflow.py:72-85 | with a result named twice a program that is not race-free can still end alike in every run |
| DslRaces.ReadFirst | dsl/workflow.py:67-73 | arguments are read when an activity is scheduled: for every such race, any activities and variables, some eager run gives the reader the initial value, or the empty string for a missing variable |
| DslRaces.WriteFirst | dsl/workflow.py:67-73 | and, unless the reader is at the front of its branch, some eager run gives it the result of the writer |
| DslPrograms.ShippedProgramConfluent | dsl/workflow2.yaml:18-57 | the shipped parallel program is race-free and returns the same variables under every schedule |
| DslRuns.SingleActivity | dsl/workflow.py:64-73 | one activity is called with the values of the variables it names, or the empty string for a missing one, and its result is stored under its result name if it has one |
| DslRuns.FinalVariables | dsl/workflow.py:56-73 | a complete run of any program leaves unnamed variables at their initial value and gives every named one the result of a call that names it |
| DslRuns.EmptyNameUntouched | dsl/workflow.py:72-73 | an empty result name stores nothing |
| DslRuns.EachActivityOnce | dsl/workflow.py:63-85 | a complete run calls each activity leaf of the program exactly once |
| DslRuns.RunLength | dsl/workflow.py:63-85 | every run has at most two steps per activity, under any scheduler, and is complete exactly when it has that many |
| DslRuns.NeverBlocked | dsl/workflow.py:74-85 | an incomplete program always has a leaf that can take its next step |
| DslRuns.SequencesRespected | dsl/workflow.py:74-77 | in every state of every run, no activity of a sequence element has started before all elements ahead of it are complete |
| DslWorkflow.DSLWorkflow.ExecuteStatement | dsl/workflow.py:63-85 | executed alone, a statement changes the variables in place as its sequential reading says |
| DslWorkflow.DSLWorkflow.Run | dsl/workflow.py:56-61 | for any history of events the run returns exactly when all its activities are complete, and for a race-free program it returns the sequential reading of the input |
| DslWorkflow.DSLWorkflow.StoreResult | dsl/workflow.py:72-73 | a result is stored only under a non-empty name |
| PoolSystem.MutualExclusion | resource_pool/pool_client/resource_pool_workflow.py:54-116 | in every reachable state of pool, users and signals each resource has at most one live grant, in one place, and no two users use one resource |
| PoolSystem.StepKeepsInvariant | resource_pool/pool_client/resource_pool_workflow.py:45-149 | every step keeps the pool's ledger consistent, records every live grant in it under its user and key, and keeps each key in one place |
| PoolSystem.UserStepKeeps | resource_pool/pool_client/resource_pool_client.py:54-85 | whatever a user does with its locks, taking, handing over or releasing, no key is in two places |
| PoolSystem.AssignKeeps | resource_pool/pool_client/resource_pool_workflow.py:80-116 | an assignment goes to a resource that has no live grant, under a key no live grant has, and keeps the invariant |
| PoolSystem.DeliverReleaseKeeps | resource_pool/pool_client/resource_pool_workflow.py:54-74 | a release changes the owner of the resource it was sent for only, and only when its key is registered; that resource then has no live grant |
| PoolService.FirstInFirstOut | resource_pool/pool_client/resource_pool_workflow.py:45-149 | the requests taken for an attempt, whatever became of it, followed by the waiters are the initial waiters followed by all acquire signals received, across restarts |
| PoolService.RequestsConserved | resource_pool/pool_client/resource_pool_client.py:38-41 | the acquire signals received and those in transit are together exactly one for each chain begun |
| PoolService.WorkConserving | resource_pool/pool_client/resource_pool_workflow.py:106-149 | when the loop is parked, exactly when it may continue as new, no waiter coexists with a free resource; attempts are at most waiters plus later requests |
| PoolProgress.ServedIff | resource_pool/pool_client/resource_pool_workflow.py:106-149 | a waiting request can be attempted, without new resources and users, if and only if some resource is free or recoverable: not yet delivered, being released, or with a user that works on it, will take it or waits for it; ordinary steps then suffice |
| PoolProgress.CanBeServed | resource_pool/pool_client/resource_pool_workflow.py:106-149 | such a run attempts exactly the requests ahead in the queue and then this one |
| PoolProgress.NeverServed | resource_pool/pool_client/resource_pool_workflow.py:106-149 | otherwise no run without new resources and users makes another attempt |
| PoolProgress.NewResourceRevives | resource_pool/pool_client/resource_pool_workflow.py:35-43 | after a new resource has been added every waiting request can be served, whatever has leaked |
| PoolProgress.HopelessGrants | resource_pool/pool_client/resource_pool_client.py:62-85 | every live grant is then on its way to a user that does not wait, or unused with a user that is releasing another |
| PoolProgress.AllLiveNotEnough | resource_pool/pool_client/resource_pool_client.py:62-85 | a run after which every resource has a live grant and yet a waiting request can never be served |
| PoolService.ReleaseFreesIffRegistered | resource_pool/pool_client/resource_pool_workflow.py:54-74 | a delivered release frees its resource if and only if its key has been registered; otherwise the pool is unchanged and the resource has leaked |
| PoolService.LeakIsPermanent | resource_pool/pool_client/resource_pool_workflow.py:54-74 | a leaked resource is never free and never used again, whatever happens |
| PoolService.LeakIffForgotten | resource_pool/pool_client/resource_pool_client.py:62-85 | a live grant becomes a leak in exactly four kinds of step: its signal is lost, its release overtakes its registration, its user ends a run with the grant still unused, or its user is terminated |
| PoolService.NoLeakIffNothingForgotten | resource_pool/pool_client/resource_pool_workflow.py:45-149 | a run ends without a leak, every resource given away having a live grant, if and only if none of its steps forgot one |
| PoolService.OvertakingLeaks | resource_pool/pool_client/resource_pool_workflow.py:88-97 | whenever a grant is under way to a waiting user, a leak can follow: the user fails at once and its release arrives before the await resumes |
| PoolService.TerminationLeaks | resource_pool/pool_client/resource_pool_client.py:78-85 | a user can be terminated at any time, and then every lock it holds or has received leaks |
| PoolService.LossLeaks | resource_pool/pool_client/resource_pool_workflow.py:88-94 | a grant in transit can be lost, and then its resource leaks |
| PoolService.GrantUnderwayReachable | resource_pool/pool_client/resource_pool_workflow.py:106-116 | the first user of a new pool reaches such a state |
| PoolService.ChainsOrderly | resource_pool/resource_user_workflow.py:56-88 | in every reachable state of the whole system each user's chain has sent one acquire and, once done with its lock, one release of that lock |
| ResourceUser.OneAcquireOneRelease | resource_pool/resource_user_workflow.py:56-88 | a chain that ends has sent one acquire, and one release of the lock it took if it took one; while it works or hands over it has sent no release; a terminated one has sent no more than that |
| ResourceUser.TakenOnce | resource_pool/resource_user_workflow.py:79-88 | the lock a chain has taken is the same until its end, across its continue-as-new |
| ResourceUser.TakesFirst | resource_pool/pool_client/resource_pool_client.py:64-68 | a waiting chain takes the first lock it has received as soon as there is one, and begins its first activity on it |
| ResourceUser.ReceivedInOrder | resource_pool/pool_client/resource_pool_client.py:31-36 | while a chain waits, the locks it receives are kept in order |
| ResourceUser.ChainEnds | resource_pool/resource_user_workflow.py:56-88 | a chain ends within seven steps of its own |
| ResourceUser.ChainCanEnd | resource_pool/resource_user_workflow.py:56-88 | a chain that has not ended can go on by itself to its regular end, without being terminated |
| ResourceUser.RunsBothActivities | resource_pool/resource_user_workflow.py:63-88 | a run fails after the iteration it was told to, else runs both activities and then releases or hands its lock to a run that will not hand it on |
| ResourcePool.RestartIsIdentity | resource_pool/pool_client/resource_pool_workflow.py:26-33 | with no grant in flight, rebuilding the key map from the continue-as-new input reproduces the pool exactly |
| ResourcePool.ReleaseEffect | resource_pool/pool_client/resource_pool_workflow.py:54-74 | a release frees the resource of its key and no other, and the branch for a resource that is not held is never taken |
| ResourcePool.BeginAssignEffect | resource_pool/pool_client/resource_pool_workflow.py:106-116 | an assignment gives the first waiter a resource nobody owns and changes no other owner |
| ResourcePool.RegisterEffect | resource_pool/pool_client/resource_pool_workflow.py:95-97 | registering a grant keeps every owner and the inverse relation of keys and holders |
| ResourcePool.DropEffect | resource_pool/pool_client/resource_pool_workflow.py:98-104 | when the requester is not found the resource is free again, and holders, keys, order and waiters stay |
| ResourcePool.AddResourcesEffect | resource_pool/pool_client/resource_pool_workflow.py:35-43 | adding resources appends the new ones, free, and leaves existing ones as they are |
| ResourcePool.AddResourcesInOrder | resource_pool/pool_client/resource_pool_workflow.py:35-43 | new resources come after the known ones, in the order in which they are first listed |
| ResourcePool.FirstFreeIsFirst | resource_pool/pool_client/resource_pool_workflow.py:118-122 | the free resource chosen is the first in insertion order |
| ResourcePool.NothingIdle | resource_pool/pool_client/resource_pool_workflow.py:124-125 | the loop can assign if and only if some request waits and some resource is free |
| PoolWorkflows.ResourcePoolWorkflow.constructor | resource_pool/pool_client/resource_pool_workflow.py:25-33 | the key map is rebuilt from the holders |
| PoolWorkflows.ResourcePoolWorkflow.AddResources | resource_pool/pool_client/resource_pool_workflow.py:35-43 | new resources enter free; known ones are ignored; the ledger stays consistent |
| PoolWorkflows.ResourcePoolWorkflow.AcquireResource | resource_pool/pool_client/resource_pool_workflow.py:45-52 | the request joins the end of the queue and no owner changes |
| PoolWorkflows.ResourcePoolWorkflow.ReleaseResource | resource_pool/pool_client/resource_pool_workflow.py:54-74 | an unknown key changes nothing; a known one frees its resource, and the ledger stays consistent |
| PoolWorkflows.ResourcePoolWorkflow.GetFreeResource | resource_pool/pool_client/resource_pool_workflow.py:118-122 | finds the first free resource, or none |
| PoolWorkflows.ResourcePoolWorkflow.AssignNextResource | resource_pool/pool_client/resource_pool_workflow.py:106-116 | reports whether an assignment was possible, and if so has begun it with the first waiter and the first free resource |
| PoolWorkflows.ResourcePoolWorkflow.Wake | resource_pool/pool_client/resource_pool_workflow.py:133-149 | the loop assigns whenever it can, continues as new only with nobody waiting or nothing free, and then hands over a state that restarts unchanged |
| PoolWorkflows.ResourcePoolWorkflow.SignalAccepted | resource_pool/pool_client/resource_pool_workflow.py:95-97 | holder and key are recorded together, so that a release under this key now frees the resource |
| PoolWorkflows.ResourcePoolWorkflow.SignalNotFound | resource_pool/pool_client/resource_pool_workflow.py:98-104 | the requester has lost its place and the resource is free |
| PoolWorkflows.ResourcePoolClient.PopFirst | resource_pool/pool_client/resource_pool_client.py:64-68 | the first resource received is taken and the others stay in order |
| PoolWorkflows.ResourceUserRun.constructor | resource_pool/pool_client/resource_pool_client.py:63-71 | a run without a lock asks for one; a run that was handed one reattaches it with a new client and asks for nothing |
| PoolWorkflows.ResourceUserRun.Unlock | resource_pool/pool_client/resource_pool_client.py:81-85 | the one lock the chain took is released, and no other |
| PoolWorkflows.ResourceUserRun.ActivityDone | resource_pool/resource_user_workflow.py:63-88 | after an activity the run fails, goes on, hands its lock over without a release, or releases it |
| SlidingWindow.Ledger | batch_sliding_window/sliding_window_workflow.py:81-157 | in every state progress plus window size is the number of records admitted since the chain began, unreported children are in the window, the window never exceeds its limit, and the children started are the first records in order |
| SlidingWindow.ReturnsAll | batch_sliding_window/sliding_window_workflow.py:122-157 | a chain that returns has started exactly the ids of its range, each once and in order, all have reported, and its result is their number |
| WindowProgress.ChainLength | batch_sliding_window/sliding_window_workflow.py:124-150 | a chain that returns has a positive page size or no records, and had max(1, ceil(records / page size)) runs |
| WindowProgress.StepBound | batch_sliding_window/sliding_window_workflow.py:81-157 | no run of such a chain has more than 4 * records + 2 * runs + 1 steps that change it, and it has returned exactly when it has had that many |
| WindowProgress.ReturnsIff | batch_sliding_window/sliding_window_workflow.py:81-150 | a chain has a returning run if and only if it has no records, or a positive page size, room for a child and a bound the loader accepts |
| WindowProgress.CanAlwaysReturn | batch_sliding_window/sliding_window_workflow.py:81-150 | such a chain can be run to its return from every state it reaches |
| WindowProgress.NeverReturns | batch_sliding_window/sliding_window_workflow.py:84-145 | any other chain starts no child and never returns |
| WindowProgress.NeverDeadlocked | batch_sliding_window/sliding_window_workflow.py:103-150 | a chain that can return and has not can always make a step that changes it, of which there are only so many |
| WindowProgress.WaitsOnlyWhenFull | batch_sliding_window/sliding_window_workflow.py:103-122 | a returnable chain waits for a child exactly when its window is full while records remain, or all its records have been started |
| WindowProgress.FillsWindow | batch_sliding_window/sliding_window_workflow.py:81-145 | with no child reporting at all the window fills up to its limit or to the number of records, across continue-as-new |
| SlidingWindow.PageContents | batch_sliding_window/record_loader_activity.py:45-59 | a page is refused exactly when its bound exceeds the record count, and otherwise holds in order exactly the ids of the page below the bound |
| Batch.BatchReturnsRecordCount | batch_sliding_window/batch_workflow.py:38-99 | whenever the batch returns, for any interleaving, delay and repetition of signals in all partitions, its result is the record count and every record's child has reported |
| Batch.CorrectIffPartitioned | batch_sliding_window/batch_workflow.py:38-99 | a returning batch has counted every record if and only if there is at least one partition or no record; without a partition it returns zero |
| BatchProgress.BatchReturnsIff | batch_sliding_window/batch_workflow.py:38-99 | a planned batch has a returning run if and only if there is no partition, a positive page size, or no record |
| BatchProgress.BatchCanAlwaysReturn | batch_sliding_window/batch_workflow.py:66-99 | it then can be run to its return from every state it reaches |
| Batch.PlanTiles | batch_sliding_window/batch_workflow.py:66-95 | partitions tile the records without gap or overlap, the clamp never fires, the loader accepts every bound, and every partition has room for a child |
| Batch.PlanErrors | batch_sliding_window/batch_workflow.py:46-67 | a window smaller than the number of partitions is refused first, then no partition is a division by zero, and a plan is made exactly in the other cases |
| Batch.PartsAddUp | batch_sliding_window/batch_workflow.py:101-110 | the parts add up to the number and differ by at most one |
| BatchWorkflows.ProcessBatchWorkflow.DivideIntoPartitions | batch_sliding_window/batch_workflow.py:101-110 | the loop over the remainder computes the shares, and these add up; zero parts is an error and a negative number of parts an empty list |
| BatchWorkflows.ProcessBatchWorkflow.PlanChildren | batch_sliding_window/batch_workflow.py:46-95 | the loop over the partitions makes the inputs of the plan, after the guard on the window size and the division by zero |
| BatchWorkflows.ProcessBatchWorkflow.AddResults | batch_sliding_window/batch_workflow.py:97-99 | the result is the sum of the children's results |
| BatchWorkflows.SlidingWindowWorkflow.BeginLoop | batch_sliding_window/sliding_window_workflow.py:84-98 | a page is used only when the offset has not reached the maximum |
| BatchWorkflows.SlidingWindowWorkflow.StartChild | batch_sliding_window/sliding_window_workflow.py:103-112 | the next record enters the window before its child is started |
| BatchWorkflows.SlidingWindowWorkflow.ContinueAsNewOrDrain | batch_sliding_window/sliding_window_workflow.py:124-150 | the run continues as new exactly while records remain, with the input of the chain's next run |
| BatchWorkflows.SlidingWindowWorkflow.HandleCompletionSignal | batch_sliding_window/sliding_window_workflow.py:152-157 | the first signal for a record removes it from the window and counts it; a repeated one changes nothing |
| ClusterSystem.InterleavedRefinesAtomic | message_passing/safe_message_handlers/workflow.py:101-213 | every execution of the interleaved manager from its start is an execution of the manager in which each assign, delete and health check is one indivisible step |
| ClusterSystem.StepRefines | message_passing/safe_message_handlers/workflow.py:101-213 | each step of the interleaved manager is one atomic operation on the current ledger, or invisible |
| ClusterSystem.StepKeepsInvariant | message_passing/safe_message_handlers/workflow.py:113-213 | while an operation holds the lock, what it read is what it would read now |
| ClusterSystem.LedgerOverRuns | message_passing/safe_message_handlers/workflow.py:135-213 | over any run from a started cluster the nodes are fixed and split into free, assigned and bad; the nodes of an assigned job only become fewer; bad nodes stay bad unless the job named like their mark is deleted |
| ClusterSystem.LaterAssignReturnsSubset | message_passing/safe_message_handlers/workflow.py:114-118 | an assignment of a job already assigned returns exactly the nodes that hold the job at that moment, a subset of those it had at any earlier time since |
| ClusterSystem.CommitExact | message_passing/safe_message_handlers/workflow.py:130-213 | when its activity succeeds, an assignment takes exactly the chosen nodes from the free ones, a deletion frees exactly the nodes of its job, and a check moves exactly the reported nodes from the assigned to the bad ones |
| ClusterSystem.ShutdownRefuses | message_passing/safe_message_handlers/workflow.py:101-156 | an assignment or deletion that has not passed the shutdown test when the cluster shuts down is never carried out: it can only be refused |
| ClusterSystem.QueuedSurvivesShutdown | message_passing/safe_message_handlers/workflow.py:104-130 | an operation that queues on the lock, held or free, or holds it when shutdown is requested can still write exactly what it would have written, in whatever order the operations ahead of it take the lock |
| ClusterSystem.AnsweredAfterShutdownIff | message_passing/safe_message_handlers/workflow.py:104-175 | after shutdown an unfinished assignment or deletion can end with something else than a refusal if and only if it queues on the lock or holds it |
| ClusterSystem.QueuedBehindHolder | message_passing/safe_message_handlers/workflow.py:104-130 | from the start, for any nodes and any job that fits, a run reaches an assignment that queues behind a health check holding the lock |
| ClusterSystem.DeletedJobStaysEmpty | message_passing/safe_message_handlers/workflow.py:115-175 | once the deletion of an assigned job has succeeded, every later assignment of it returns no nodes |
| ClusterSystem.ReturnsWhenQuiet | message_passing/safe_message_handlers/workflow.py:249-254 | when the workflow may return, the lock is free and the operations with an outcome are exactly those accepted |
| Cluster.AssignTakesFree | message_passing/safe_message_handlers/workflow.py:119-130 | a first assignment takes free nodes only, exactly as many as asked for when that is not negative |
| Cluster.AssignTakesInOrder | message_passing/safe_message_handlers/workflow.py:127-127 | free nodes are taken in the order of the ledger |
| Cluster.AssignRefused | message_passing/safe_message_handlers/workflow.py:119-126 | a new job is refused exactly when fewer nodes are free than asked for |
| Cluster.FirstAssignExact | message_passing/safe_message_handlers/workflow.py:127-145 | a first assignment writes the job into exactly the nodes taken, and returns exactly those if and only if its name is neither empty while others are assigned nor the bad mark while nodes are bad |
| Cluster.RepeatedAssign | message_passing/safe_message_handlers/workflow.py:114-118 | a job that is known is answered with exactly the nodes that hold it, whatever number is asked for |
| Cluster.AssignTwice | message_passing/safe_message_handlers/workflow.py:114-145 | assigning a job again at once returns what the first assignment returned, which is what it took exactly for a usable name |
| Cluster.DeleteAndCheckTargets | message_passing/safe_message_handlers/workflow.py:158-197 | a deletion picks exactly the nodes of its job, a health check exactly the nodes that have one |
| Cluster.AtomicallyKeeps | message_passing/safe_message_handlers/workflow.py:101-213 | an operation keeps the ledger valid and the nodes fixed; one that is refused or whose activity fails changes nothing |
| Cluster.AtomicallyWrites | message_passing/safe_message_handlers/workflow.py:135-213 | assign writes only free nodes, delete frees exactly its job's nodes, a health check marks only assigned nodes |
| Cluster.WriteExact | message_passing/safe_message_handlers/workflow.py:135-213 | the slot of every node after each operation has succeeded |
| Cluster.CheckMarks | message_passing/safe_message_handlers/workflow.py:195-213 | a health check marks exactly the reported nodes as bad, and takes them from the assigned ones |
| Cluster.DeleteFrees | message_passing/safe_message_handlers/workflow.py:158-175 | a deletion frees exactly the nodes of its job |
| Cluster.BadRecoversIff | message_passing/safe_message_handlers/workflow.py:158-175 | a bad node recovers if and only if a deletion of the job named like the bad mark succeeds |
| ClusterManager.ClusterManagerWorkflow.StartCluster | message_passing/safe_message_handlers/workflow.py:217-221 | all nodes become free, repeated ids counting once |
| ClusterManager.ClusterManagerWorkflow.GetAssignedNodes | message_passing/safe_message_handlers/workflow.py:183-193 | the nodes of a job, or of every job when the name is missing or empty |
| ClusterManager.ClusterManagerWorkflow.BeginAssign | message_passing/safe_message_handlers/workflow.py:113-130 | a known job is answered with exactly the nodes that hold it, too few nodes are refused, else the nodes for the activity are free and as many as asked for |
| ClusterManager.ClusterManagerWorkflow.FinishAssign | message_passing/safe_message_handlers/workflow.py:130-145 | with the ledger still as it was read, the assignment has happened as one indivisible step |
| ClusterManager.ClusterManagerWorkflow.FinishDelete | message_passing/safe_message_handlers/workflow.py:164-175 | with the ledger still as it was read, the deletion has happened as one indivisible step, which freed exactly the nodes of its job |
| ClusterManager.ClusterManagerWorkflow.FinishHealthCheck | message_passing/safe_message_handlers/workflow.py:195-213 | with the ledger still as it was read, the check has happened as one indivisible step, after which exactly the reported nodes are bad besides those that were |
| Compensation.RepliesExact | message_passing/waiting_for_handlers_and_compensation/workflows.py:83-134 | what happened in a run decides every reply: the result if and only if the task succeeded, the compensation error if and only if the compensation failed, else its own error if its task failed and the abort if not |
| Compensation.UpdatesAnswered | message_passing/waiting_for_handlers_and_compensation/workflows.py:82-134 | an answered update either returned its own result and never compensated, or failed after exactly one compensation attempt; it is aborted only when the exit holds an exception; it returns its result only once the exit is decided |
| Compensation.RaceExact | message_passing/waiting_for_handlers_and_compensation/workflows.py:97-121 | an update goes on if and only if its task failed, the workflow failed or was cancelled, or both succeeded; it then replies with the result of a task that succeeded, and otherwise compensates |
| Compensation.ExitExact | message_passing/waiting_for_handlers_and_compensation/workflows.py:48-80 | the exit holds a result if and only if the logic succeeded and an exception if and only if it failed or was cancelled; the workflow returns after the one and raises after the other |
| Compensation.CanEnd | message_passing/waiting_for_handlers_and_compensation/workflows.py:61-80 | from every state with the exit decided, the workflow can be brought to its end with all updates answered |
| Compensation.WorkflowCompensatesLast | message_passing/waiting_for_handlers_and_compensation/workflows.py:48-80 | the workflow compensates at most once, only after an exception, and starts only when every update accepted before then has been answered |
| Compensation.FlagMeaning | message_passing/waiting_for_handlers_and_compensation/workflows.py:75-80 | the flag for compensated updates is set if and only if some update's or the workflow's own compensation has succeeded |
| Compensation.FlagWithoutUpdates | message_passing/waiting_for_handlers_and_compensation/workflows.py:80-80 | that flag can be set without any update |
| Compensation.HeldUpOnlyBySuccess | message_passing/waiting_for_handlers_and_compensation/workflows.py:97-134 | an unfinished update can always move on, except that a task that has succeeded waits for the exit |
| Compensation.CompensatingWorkflow.UpdateResumes | message_passing/waiting_for_handlers_and_compensation/workflows.py:101-128 | a task that is done decides the reply even if the workflow has failed; otherwise the update compensates, once |
| Compensation.CompensatingWorkflow.UpdateCompensated | message_passing/waiting_for_handlers_and_compensation/workflows.py:119-134 | the update fails with its own error, the abort, or the error of its compensation, after one attempt; it is aborted only when the exit holds an exception |
| Compensation.CompensatingWorkflow.LogicSucceeded | message_passing/waiting_for_handlers_and_compensation/workflows.py:61-63 | until the exit is decided no update has replied with its result or been aborted |
| Compensation.CompensatingWorkflow.LogicRaised | message_passing/waiting_for_handlers_and_compensation/workflows.py:67-70 | with the exception in the exit every update still racing can go on |
| Compensation.CompensatingWorkflow.AllHandlersFinished | message_passing/waiting_for_handlers_and_compensation/workflows.py:61-72 | after all handlers the workflow returns, or compensates if and only if the exit holds an exception |
| UpdatableTimer.NeverEarlyNeverStuck | updatable_timer/updatable_timer_lib.py:12-36 | for any updates and clock ticks, with the wake-up time of the last update: the timer returns only at or after it; parked, it has an update pending or that time as its deadline; once it has come two steps of its own end it; before it, it wakes only for an update |
| UpdatableTimer.LatestInForce | updatable_timer/updatable_timer_lib.py:33-36 | in every run the wake-up time in force is that of the last update, or the initial one |
| UpdatableTimer.UpdateWakes | updatable_timer/updatable_timer_lib.py:20-36 | an update wakes a parked timer, which then returns if the new time has come and else waits until it |
| UpdatableTimer.ParkedUntil | updatable_timer/updatable_timer_lib.py:21-27 | a parked timer stays parked until an update is pending or its deadline has come |
| UpdatableTimer.SleepsOut | updatable_timer/updatable_timer_lib.py:12-32 | from every reachable state a timer left alone returns exactly at the wake-up time in force |
| UpdatableTimer.UpdatableTimerObject.UpdateWakeUpTime | updatable_timer/updatable_timer_lib.py:33-36 | the method has the effect of an update at any moment |
| UpdatableTimer.UpdatableTimerObject.Iterate | updatable_timer/updatable_timer_lib.py:14-27 | a turn of the loop ends the sleep exactly when the wake time has come, else clears the flag and waits until that time |

## Left out

- DslDeterminism.DeterministicIff: programs that name one result twice are outside the if-and-only-if; whether their runs agree depends on which stores are overwritten and on what the activities compute (`HiddenRace`).
- DslSequential.SequentialIff: the same; for such programs `Confluence` and `SilentConfluence` give a sufficient condition.
- DSL activity failure: the run then raises and returns no variables, so no result about a complete run concerns it.
- DSL activity bodies (`dsl/activities.py`): any function of name and arguments is allowed in their place.
- Pool: errors of the signal to the requester other than not found, and releases sent by an operator.
- Pool: a pool workflow started with resources already held; the model starts it with free resources and reaches held ones through its own runs.
- Pool: cancellation of a user while its release is being sent.
- Users: the limit on waiting for a resource may run out at any moment while the user waits; it is not a duration.
- Batch: failure of a child or of an activity; the loader's refusal is modelled as a page that never arrives.
- Batch: the state query, which only sorts and copies fields.
- Cluster: continue-as-new. The next run starts a new cluster and forgets all assignments, so the ledger is a ledger of the first run.
- Cluster: the interval between health checks; they may happen at any time after the start, also side by side.
- Compensation: exceptions that fail the workflow task instead of the workflow, and a second cause of exit while handlers are awaited.
- Wall-clock durations, retry policies, logging and the wiring of clients and workers throughout.
