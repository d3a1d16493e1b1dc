/**
 The race between a workflow's exit and its update handlers, each of which compensates when it
 is cut short (message_passing/waiting_for_handlers_and_compensation/workflows.py). There is at
 most one cause for the workflow to exit.
 */
module Compensation {
  type Id = nat

  /** The future that tells update handlers how the workflow's own logic ended. */
  datatype Exit = Pending | ResultSet | ExceptionSet

  /** The task that runs an update's own logic. */
  datatype UpdateTask = Running | Succeeded | Failed

  datatype Reason = OwnFailure | Aborted

  datatype Reply = Result | OwnError | AbortError | CompensationError

  datatype Handler =
    | Racing(task: UpdateTask)
    | Compensating(reason: Reason)
    | Finished(reply: Reply)

  /** attempts counts compensations begun; early: accepted before the workflow began to compensate. */
  datatype Update = Update(handler: Handler, attempts: nat, early: bool)

  datatype Main =
    | Working
    | WaitingAfterSuccess
    | WaitingAfterException
    | WorkflowCompensating
    | Returned
    | Raised

  datatype System = System(
    main: Main,
    exit: Exit,
    updates: map<Id, Update>,
    updateStarted: bool,
    workflowAttempts: nat,
    updateCompensationDone: bool,
    workflowCompensationDone: bool,
    compensated: set<Id>)          // the updates whose compensation succeeded

  datatype Event =
    | UpdateAccepted(id: Id)
    | TaskEnds(id: Id, ok: bool)
    | RaceEnds(id: Id)             // the wait on the task and the exit returns
    | UpdateCompensationEnds(id: Id, ok: bool)
    | WorkSucceeds
    | WorkFails
    | WorkCancelled
    | HandlersFinished             // the wait for all handlers returns
    | WorkflowCompensationEnds(ok: bool)

  predicate Open(s: System) {
    !s.main.Returned? && !s.main.Raised?
  }

  /** The wait returns at the first exception, or when both the task and the exit are done. */
  predicate RaceOver(task: UpdateTask, exit: Exit) {
    task.Failed? || exit.ExceptionSet? || (task.Succeeded? && exit.ResultSet?)
  }

  predicate AllFinished(s: System) {
    forall id | id in s.updates :: s.updates[id].handler.Finished?
  }

  predicate Enabled(s: System, e: Event) {
    Open(s) &&
    match e
    case UpdateAccepted(id) => id !in s.updates
    case TaskEnds(id, _) => id in s.updates && s.updates[id].handler == Racing(Running)
    case RaceEnds(id) =>
      id in s.updates && s.updates[id].handler.Racing? && RaceOver(s.updates[id].handler.task, s.exit)
    case UpdateCompensationEnds(id, _) => id in s.updates && s.updates[id].handler.Compensating?
    case WorkSucceeds => s.main.Working? && s.updateStarted
    case WorkFails => s.main.Working? && s.updateStarted
    case WorkCancelled => s.main.Working?
    case HandlersFinished => (s.main.WaitingAfterSuccess? || s.main.WaitingAfterException?) && AllFinished(s)
    case WorkflowCompensationEnds(_) => s.main.WorkflowCompensating?
  }

  /** The handler goes on: a task that is done decides its reply, otherwise the workflow has cut it short. */
  function AfterRace(u: Update): Update
    requires u.handler.Racing?
  {
    match u.handler.task
    case Succeeded => u.(handler := Finished(Result))
    case Failed => u.(handler := Compensating(OwnFailure), attempts := u.attempts + 1)
    case Running => u.(handler := Compensating(Aborted), attempts := u.attempts + 1)
  }

  function ReplyTo(reason: Reason, ok: bool): Reply {
    if !ok then CompensationError else if reason.OwnFailure? then OwnError else AbortError
  }

  function Apply(s: System, e: Event): System
    requires Enabled(s, e)
  {
    match e
    case UpdateAccepted(id) =>
      s.(updates := s.updates[id := Update(Racing(Running), 0, !s.main.WorkflowCompensating?)], updateStarted := true)
    case TaskEnds(id, ok) =>
      s.(updates := s.updates[id := s.updates[id].(handler := Racing(if ok then Succeeded else Failed))])
    case RaceEnds(id) => s.(updates := s.updates[id := AfterRace(s.updates[id])])
    case UpdateCompensationEnds(id, ok) =>
      var u := s.updates[id].(handler := Finished(ReplyTo(s.updates[id].handler.reason, ok)));
      if ok then s.(updates := s.updates[id := u], updateCompensationDone := true, compensated := s.compensated + {id})
      else s.(updates := s.updates[id := u])
    case WorkSucceeds => s.(main := WaitingAfterSuccess, exit := ResultSet)
    case WorkFails => s.(main := WaitingAfterException, exit := ExceptionSet)
    case WorkCancelled => s.(main := WaitingAfterException, exit := ExceptionSet)
    case HandlersFinished =>
      if s.main.WaitingAfterSuccess? then s.(main := Returned)
      else s.(main := WorkflowCompensating, workflowAttempts := s.workflowAttempts + 1)
    case WorkflowCompensationEnds(ok) =>
      // The workflow's compensation sets the updates' flag as well.
      if ok then s.(main := Raised, updateCompensationDone := true, workflowCompensationDone := true)
      else s.(main := Raised)
  }

  predicate Run(s: System, es: seq<Event>)
    decreases |es|
  {
    es == [] || (Enabled(s, es[0]) && Run(Apply(s, es[0]), es[1..]))
  }

  function Exec(s: System, es: seq<Event>): System
    requires Run(s, es)
    decreases |es|
  {
    if es == [] then s else Exec(Apply(s, es[0]), es[1..])
  }

  function Initial(): System {
    System(Working, Pending, map[], false, 0, false, false, {})
  }

  // ---------- The invariant ----------

  /** What an update has done so far, and how far the workflow must have got for that. */
  predicate UpdateOrderly(u: Update, exit: Exit) {
    match u.handler
    case Racing(_) => u.attempts == 0
    case Compensating(reason) => u.attempts == 1 && (reason.Aborted? ==> exit.ExceptionSet?)
    case Finished(reply) =>
      match reply
      case Result => u.attempts == 0 && !exit.Pending?
      case AbortError => u.attempts == 1 && exit.ExceptionSet?
      case _ => u.attempts == 1
  }

  predicate MainOrderly(s: System) {
    match s.main
    case Working => s.exit.Pending? && s.workflowAttempts == 0
    case WaitingAfterSuccess => s.exit.ResultSet? && s.workflowAttempts == 0
    case Returned => s.exit.ResultSet? && s.workflowAttempts == 0
    case WaitingAfterException => s.exit.ExceptionSet? && s.workflowAttempts == 0
    case WorkflowCompensating => s.exit.ExceptionSet? && s.workflowAttempts == 1
    case Raised => s.exit.ExceptionSet? && s.workflowAttempts == 1
  }

  predicate Invariant(s: System) {
    && MainOrderly(s)
    && (forall id | id in s.updates :: UpdateOrderly(s.updates[id], s.exit))
    && (s.main.WorkflowCompensating? || s.main.Raised? || s.main.Returned? ==>
          forall id | id in s.updates && s.updates[id].early :: s.updates[id].handler.Finished?)
    && (forall id | id in s.updates && !s.updates[id].early :: s.main.WorkflowCompensating? || s.main.Raised?)
    && (s.workflowCompensationDone ==> s.main.Raised?)
    && (s.updateCompensationDone <==> s.workflowCompensationDone || s.compensated != {})
    && (forall id | id in s.compensated :: id in s.updates && s.updates[id].attempts == 1)
  }

  lemma StepKeepsInvariant(s: System, e: Event)
    requires Invariant(s) && Enabled(s, e)
    ensures Invariant(Apply(s, e))
  {
    match e
    case UpdateAccepted(id) => UpdateStepKeeps(s, Apply(s, e), id);
    case TaskEnds(id, _) => UpdateStepKeeps(s, Apply(s, e), id);
    case RaceEnds(id) => UpdateStepKeeps(s, Apply(s, e), id);
    case UpdateCompensationEnds(id, ok) => CompensationKeeps(s, id, ok);
    case _ => MainStepKeeps(s, e);
  }

  /** One update moves on, without a compensation ending. */
  lemma UpdateStepKeeps(s: System, s': System, id: Id)
    requires Invariant(s) && Open(s) && id in s'.updates
    requires s' == s.(updates := s.updates[id := s'.updates[id]], updateStarted := s'.updateStarted)
    requires UpdateOrderly(s'.updates[id], s.exit)
    requires if id in s.updates
             then !s.updates[id].handler.Finished?
                  && s'.updates[id].early == s.updates[id].early
                  && s'.updates[id].attempts >= s.updates[id].attempts
             else s'.updates[id].early == !s.main.WorkflowCompensating?
    ensures Invariant(s')
  {
  }

  lemma CompensationKeeps(s: System, id: Id, ok: bool)
    requires Invariant(s) && Enabled(s, UpdateCompensationEnds(id, ok))
    ensures Invariant(Apply(s, UpdateCompensationEnds(id, ok)))
  {
    var s' := Apply(s, UpdateCompensationEnds(id, ok));
    assert ok ==> id in s'.compensated;
    assert UpdateOrderly(s'.updates[id], s'.exit);
  }

  /** The workflow's own steps touch no update, and the exit is decided once. */
  lemma MainStepKeeps(s: System, e: Event)
    requires Invariant(s) && Enabled(s, e)
    requires e.WorkSucceeds? || e.WorkFails? || e.WorkCancelled? || e.HandlersFinished? || e.WorkflowCompensationEnds?
    ensures Invariant(Apply(s, e))
  {
    assert Apply(s, e).updates == s.updates;
  }

  lemma {:induction false} RunKeepsInvariant(s: System, es: seq<Event>)
    requires Invariant(s) && Run(s, es)
    ensures Invariant(Exec(s, es))
    decreases |es|
  {
    if es != [] {
      StepKeepsInvariant(s, es[0]);
      RunKeepsInvariant(Apply(s, es[0]), es[1..]);
    }
  }

  /**
   Main result, for any number of updates: an update either replies with its own result and never
   compensates, or fails after exactly one attempt to compensate; it is aborted only when the exit
   holds an exception; and no update replies with its result before the workflow's own logic has
   ended, since a race without exception waits for both sides.
   */
  lemma UpdatesAnswered(es: seq<Event>, id: Id)
    requires Run(Initial(), es) && id in Exec(Initial(), es).updates
    requires Exec(Initial(), es).updates[id].handler.Finished?
    ensures var s := Exec(Initial(), es); var u := s.updates[id];
            && u.attempts == (if u.handler.reply.Result? then 0 else 1)
            && (u.handler.reply.AbortError? ==> s.exit.ExceptionSet?)
            && (u.handler.reply.Result? ==> !s.exit.Pending?)
  {
    RunKeepsInvariant(Initial(), es);
  }

  /**
   The workflow compensates only after its own logic has ended with an exception, at most once,
   and not before every update accepted until then has been answered; it returns or raises only
   when all those have.
   */
  lemma WorkflowCompensatesLast(es: seq<Event>)
    requires Run(Initial(), es)
    ensures var s := Exec(Initial(), es);
            && s.workflowAttempts <= 1
            && (s.workflowAttempts == 1 <==> s.main.WorkflowCompensating? || s.main.Raised?)
            && (s.workflowAttempts == 1 ==> s.exit.ExceptionSet?)
            && (s.workflowAttempts == 1 || !Open(s) ==>
                  forall id | id in s.updates && s.updates[id].early :: s.updates[id].handler.Finished?)
            && (s.workflowAttempts == 0 ==> forall id | id in s.updates :: s.updates[id].early)
  {
    RunKeepsInvariant(Initial(), es);
  }

  // ---------- What happened, and what it led to ----------

  predicate Happened(es: seq<Event>, e: Event) {
    exists i | 0 <= i < |es| :: es[i] == e
  }

  lemma HappenedMore(h: seq<Event>, e: Event)
    ensures forall e' :: Happened(h + [e], e') <==> Happened(h, e') || e' == e
  {
    forall e'
      ensures Happened(h + [e], e') <==> Happened(h, e') || e' == e
    {
      if Happened(h, e') {
        var i :| 0 <= i < |h| && h[i] == e';
        assert (h + [e])[i] == e';
      }
      assert (h + [e])[|h|] == e;
    }
  }

  /** How far an update has come is decided by how its task and its compensation have ended. */
  predicate UpdateFits(u: Update, succeeded: bool, failed: bool, compensated: bool, uncompensated: bool) {
    && !(succeeded && failed) && !(compensated && uncompensated)
    && match u.handler
       case Racing(task) =>
         && !compensated && !uncompensated
         && task == if succeeded then Succeeded else if failed then Failed else Running
       case Compensating(reason) =>
         && !succeeded && !compensated && !uncompensated
         && reason == if failed then OwnFailure else Aborted
       case Finished(reply) =>
         && (compensated || uncompensated <==> !succeeded)
         && reply == if succeeded then Result
                     else if uncompensated then CompensationError
                     else if failed then OwnError else AbortError
  }

  predicate Fits(s: System, h: seq<Event>, id: Id) {
    && (id in s.updates <==> Happened(h, UpdateAccepted(id)))
    && (id in s.compensated <==> Happened(h, UpdateCompensationEnds(id, true)))
    && if id in s.updates then
         UpdateFits(s.updates[id], Happened(h, TaskEnds(id, true)), Happened(h, TaskEnds(id, false)),
                    Happened(h, UpdateCompensationEnds(id, true)), Happened(h, UpdateCompensationEnds(id, false)))
       else forall ok :: !Happened(h, TaskEnds(id, ok)) && !Happened(h, UpdateCompensationEnds(id, ok))
  }

  ghost predicate UpdatesFit(s: System, h: seq<Event>) {
    (forall id :: Fits(s, h, id)) && (s.updateStarted <==> s.updates != map[])
  }

  /** How the workflow has come to where it is. */
  ghost predicate MainFits(s: System, h: seq<Event>) {
    && (s.exit.ResultSet? <==> Happened(h, WorkSucceeds))
    && (s.exit.ExceptionSet? <==> Happened(h, WorkFails) || Happened(h, WorkCancelled))
    && (Happened(h, HandlersFinished) <==> s.main.Returned? || s.main.WorkflowCompensating? || s.main.Raised?)
    && (s.main.Returned? <==> s.exit.ResultSet? && Happened(h, HandlersFinished))
    && (s.main.WorkflowCompensating? || s.main.Raised? <==> s.exit.ExceptionSet? && Happened(h, HandlersFinished))
    && (s.main.Raised? <==>
          Happened(h, WorkflowCompensationEnds(true)) || Happened(h, WorkflowCompensationEnds(false)))
    && (s.workflowCompensationDone <==> Happened(h, WorkflowCompensationEnds(true)))
  }

  lemma StepFits(s: System, h: seq<Event>, e: Event)
    requires Invariant(s) && Enabled(s, e) && UpdatesFit(s, h)
    ensures UpdatesFit(Apply(s, e), h + [e])
  {
    forall id
      ensures Fits(Apply(s, e), h + [e], id)
    {
      StepFitsUpdate(s, h, e, id);
    }
  }

  predicate Concerns(e: Event, id: Id) {
    match e
    case UpdateAccepted(i) => i == id
    case TaskEnds(i, _) => i == id
    case RaceEnds(i) => i == id
    case UpdateCompensationEnds(i, _) => i == id
    case _ => false
  }

  lemma StepFitsUpdate(s: System, h: seq<Event>, e: Event, id: Id)
    requires Enabled(s, e) && Fits(s, h, id) && (id in s.updates ==> UpdateOrderly(s.updates[id], s.exit))
    ensures Fits(Apply(s, e), h + [e], id)
  {
    HappenedMore(h, e);
    var s' := Apply(s, e);
    if !Concerns(e, id) {
      assert id in s'.updates <==> id in s.updates;
      assert id in s.updates ==> s'.updates[id] == s.updates[id];
      assert id in s'.compensated <==> id in s.compensated;
    }
  }

  lemma StepFitsMain(s: System, h: seq<Event>, e: Event)
    requires Invariant(s) && Enabled(s, e) && MainFits(s, h)
    ensures MainFits(Apply(s, e), h + [e])
  {
    HappenedMore(h, e);
  }

  lemma {:induction false} RunFits(s: System, h: seq<Event>, es: seq<Event>)
    requires Invariant(s) && UpdatesFit(s, h) && MainFits(s, h) && Run(s, es)
    ensures UpdatesFit(Exec(s, es), h + es) && MainFits(Exec(s, es), h + es)
    decreases |es|
  {
    if es == [] {
      assert h + es == h;
    } else {
      StepKeepsInvariant(s, es[0]);
      StepFits(s, h, es[0]);
      StepFitsMain(s, h, es[0]);
      RunFits(Apply(s, es[0]), h + [es[0]], es[1..]);
      assert h + [es[0]] + es[1..] == h + es;
    }
  }

  /**
   Main result: what happened in a run decides every reply. An update whose task succeeded replies
   with its result; otherwise it compensates, and replies with the error of a compensation that
   failed, else with its own error if its task failed, else with the abort.
   */
  lemma RepliesExact(es: seq<Event>, id: Id)
    requires Run(Initial(), es) && id in Exec(Initial(), es).updates
    requires Exec(Initial(), es).updates[id].handler.Finished?
    ensures var reply := Exec(Initial(), es).updates[id].handler.reply;
            && (reply == Result <==> Happened(es, TaskEnds(id, true)))
            && (reply == CompensationError <==> Happened(es, UpdateCompensationEnds(id, false)))
            && (reply == OwnError <==>
                  Happened(es, UpdateCompensationEnds(id, true)) && Happened(es, TaskEnds(id, false)))
            && (reply == AbortError <==>
                  Happened(es, UpdateCompensationEnds(id, true)) && !Happened(es, TaskEnds(id, false)))
  {
    RunFits(Initial(), [], es);
    assert [] + es == es;
    assert Fits(Exec(Initial(), es), es, id);
  }

  /** What happened in a run decides the exit, how the workflow ends, and whether it compensated. */
  lemma ExitExact(es: seq<Event>)
    requires Run(Initial(), es)
    ensures MainFits(Exec(Initial(), es), es)
    ensures Exec(Initial(), es).main.Returned? ==> Happened(es, WorkSucceeds) && !Happened(es, WorkFails)
    ensures Happened(es, WorkSucceeds) || Happened(es, WorkFails) ==> exists id :: Happened(es, UpdateAccepted(id))
  {
    RunKeepsInvariant(Initial(), es);
    RunFits(Initial(), [], es);
    assert [] + es == es;
    WorkNeedsUpdate(Initial(), es);
    var s := Exec(Initial(), es);
    if s.updates != map[] {
      var id :| id in s.updates;
      assert Fits(s, es, id);
      assert Happened(es, UpdateAccepted(id));
    }
  }

  /**
   An update goes on exactly when its own task has failed, the workflow has failed or been cancelled,
   or both have succeeded; it then replies with its result if its task has succeeded, and otherwise
   begins its one compensation.
   */
  lemma RaceExact(es: seq<Event>, id: Id)
    requires Run(Initial(), es) && id in Exec(Initial(), es).updates
    requires Exec(Initial(), es).updates[id].handler.Racing? && Open(Exec(Initial(), es))
    ensures var s := Exec(Initial(), es);
            && (Enabled(s, RaceEnds(id)) <==>
                  || Happened(es, TaskEnds(id, false)) || Happened(es, WorkFails) || Happened(es, WorkCancelled)
                  || (Happened(es, TaskEnds(id, true)) && Happened(es, WorkSucceeds)))
            && (Enabled(s, RaceEnds(id)) ==>
                  var u := Apply(s, RaceEnds(id)).updates[id];
                  && u.handler == (if Happened(es, TaskEnds(id, true)) then Finished(Result)
                                   else Compensating(if Happened(es, TaskEnds(id, false)) then OwnFailure else Aborted))
                  && u.attempts == (if Happened(es, TaskEnds(id, true)) then 0 else 1))
  {
    var s := Exec(Initial(), es);
    RunKeepsInvariant(Initial(), es);
    RunFits(Initial(), [], es);
    assert [] + es == es;
    assert Fits(s, es, id) && UpdateOrderly(s.updates[id], s.exit);
    RaceFits(s, es, id);
  }

  lemma RaceFits(s: System, h: seq<Event>, id: Id)
    requires id in s.updates && s.updates[id].handler.Racing? && s.updates[id].attempts == 0 && Open(s)
    requires Fits(s, h, id) && MainFits(s, h)
    ensures Enabled(s, RaceEnds(id)) <==>
              || Happened(h, TaskEnds(id, false)) || Happened(h, WorkFails) || Happened(h, WorkCancelled)
              || (Happened(h, TaskEnds(id, true)) && Happened(h, WorkSucceeds))
    ensures Enabled(s, RaceEnds(id)) ==>
              var u := Apply(s, RaceEnds(id)).updates[id];
              && u.handler == (if Happened(h, TaskEnds(id, true)) then Finished(Result)
                               else Compensating(if Happened(h, TaskEnds(id, false)) then OwnFailure else Aborted))
              && u.attempts == (if Happened(h, TaskEnds(id, true)) then 0 else 1)
  {
  }

  // ---------- Every run can be brought to an end ----------

  /** One more update is accepted at any time, and answered. */
  lemma CanAccept(s: System, id: Id)
    requires Open(s) && id !in s.updates
    ensures Enabled(s, UpdateAccepted(id)) && Apply(s, UpdateAccepted(id)).updateStarted
    ensures Apply(s, UpdateAccepted(id)).updates.Keys == s.updates.Keys + {id}
  {
  }

  /** While the logic is at work and an update has arrived, the logic can end in each of three ways. */
  lemma LogicCanEnd(s: System, e: Event)
    requires s.main.Working? && (e.WorkSucceeds? || e.WorkFails? || e.WorkCancelled?)
    ensures Enabled(s, e) <==> s.updateStarted || e.WorkCancelled?
    ensures Enabled(s, e) ==> !Apply(s, e).exit.Pending? && (Apply(s, e).main.WaitingAfterSuccess? <==> e.WorkSucceeds?)
  {
  }

  function Unfinished(s: System): set<Id> {
    set id | id in s.updates && !s.updates[id].handler.Finished?
  }

  /** Once the exit is decided, an unfinished update can take its next step. */
  lemma NextOfUpdate(s: System, id: Id) returns (e: Event)
    requires Invariant(s) && Open(s) && !s.exit.Pending? && id in Unfinished(s)
    ensures Enabled(s, e) && Apply(s, e).main == s.main && Apply(s, e).exit == s.exit
    ensures var s' := Apply(s, e);
            && s'.updates == s.updates[id := s'.updates[id]]
            && Remaining(s'.updates[id]) < Remaining(s.updates[id])
  {
    match s.updates[id].handler
    case Racing(Running) => e := TaskEnds(id, true);
    case Racing(_) => e := RaceEnds(id);
    case Compensating(_) => e := UpdateCompensationEnds(id, true);
  }

  lemma {:induction false} FinishOne(s: System, id: Id) returns (es: seq<Event>)
    requires Invariant(s) && Open(s) && !s.exit.Pending? && id in Unfinished(s)
    ensures Run(s, es) && Invariant(Exec(s, es))
    ensures Exec(s, es).main == s.main && Exec(s, es).exit == s.exit && Unfinished(Exec(s, es)) == Unfinished(s) - {id}
    decreases Remaining(s.updates[id])
  {
    var e := NextOfUpdate(s, id);
    var s' := Apply(s, e);
    StepKeepsInvariant(s, e);
    if id in Unfinished(s') {
      assert Unfinished(s') == Unfinished(s);
      es := FinishOne(s', id);
    } else {
      assert Unfinished(s') == Unfinished(s) - {id};
      es := [];
    }
    es := [e] + es;
  }

  lemma {:induction false} FinishUpdates(s: System) returns (es: seq<Event>)
    requires Invariant(s) && Open(s) && !s.exit.Pending?
    ensures Run(s, es) && Invariant(Exec(s, es))
    ensures Exec(s, es).main == s.main && Exec(s, es).exit == s.exit && AllFinished(Exec(s, es))
    decreases |Unfinished(s)|
  {
    es := [];
    if id :| id in Unfinished(s) {
      var first := FinishOne(s, id);
      var rest := FinishUpdates(Exec(s, first));
      Append(s, first, rest);
      es := first + rest;
    } else {
      assert forall id | id in s.updates :: id !in Unfinished(s);
    }
  }

  lemma {:induction false} Append(s: System, es: seq<Event>, more: seq<Event>)
    requires Run(s, es) && Run(Exec(s, es), more)
    ensures Run(s, es + more) && Exec(s, es + more) == Exec(Exec(s, es), more)
    decreases |es|
  {
    if es == [] {
      assert es + more == more;
    } else {
      Append(Apply(s, es[0]), es[1..], more);
      assert (es + more)[0] == es[0] && (es + more)[1..] == es[1..] + more;
    }
  }

  lemma Then(s: System, es: seq<Event>, e: Event)
    requires Run(s, es) && Enabled(Exec(s, es), e)
    ensures Run(s, es + [e]) && Exec(s, es + [e]) == Apply(Exec(s, es), e)
  {
    assert [e][1..] == [];
    Append(s, es, [e]);
  }

  /**
   Nothing is ever stuck: from every state with the exit decided the workflow can be brought to its
   end, which is a return exactly after success, with all updates answered that are there then.
   */
  lemma CanEnd(s: System) returns (es: seq<Event>)
    requires Invariant(s) && Open(s) && !s.exit.Pending?
    ensures Run(s, es) && Invariant(Exec(s, es)) && AllFinished(Exec(s, es))
    ensures if s.exit.ResultSet? then Exec(s, es).main.Returned? else Exec(s, es).main.Raised?
  {
    es := FinishUpdates(s);
    if !s.main.WorkflowCompensating? {
      StepKeepsInvariant(Exec(s, es), HandlersFinished);
      Then(s, es, HandlersFinished);
      es := es + [HandlersFinished];
    }
    if s.exit.ExceptionSet? {
      StepKeepsInvariant(Exec(s, es), WorkflowCompensationEnds(true));
      Then(s, es, WorkflowCompensationEnds(true));
      es := es + [WorkflowCompensationEnds(true)];
    }
  }

  /** The workflow's logic waits for the first update. */
  lemma {:induction false} WorkNeedsUpdate(s: System, es: seq<Event>)
    requires Run(s, es)
    ensures s.updateStarted || Happened(es, WorkSucceeds) || Happened(es, WorkFails) ==> Exec(s, es).updateStarted
    decreases |es|
  {
    if es != [] {
      WorkNeedsUpdate(Apply(s, es[0]), es[1..]);
      assert forall e | Happened(es, e) :: es[0] == e || Happened(es[1..], e) by {
        forall e | Happened(es, e)
          ensures es[0] == e || Happened(es[1..], e)
        {
          var i :| 0 <= i < |es| && es[i] == e;
          assert i > 0 ==> es[1..][i - 1] == e;
        }
      }
    }
  }

  /** The updates' flag is set exactly when some compensation has succeeded, the workflow's own included. */
  lemma FlagMeaning(es: seq<Event>)
    requires Run(Initial(), es)
    ensures var s := Exec(Initial(), es);
            && (s.updateCompensationDone <==> s.workflowCompensationDone || s.compensated != {})
            && (forall id | id in s.compensated :: id in s.updates && s.updates[id].attempts == 1)
  {
    RunKeepsInvariant(Initial(), es);
  }

  /** So the flag does not prove that an update was compensated: here there was no update at all. */
  lemma FlagWithoutUpdates(es: seq<Event>)
    requires es == [WorkCancelled, HandlersFinished, WorkflowCompensationEnds(true)]
    ensures Run(Initial(), es)
    ensures Exec(Initial(), es).updateCompensationDone && Exec(Initial(), es).updates == map[]
  {
    var s1 := Apply(Initial(), WorkCancelled);
    var s2 := Apply(s1, HandlersFinished);
    var s3 := Apply(s2, WorkflowCompensationEnds(true));
    assert es[1..] == [HandlersFinished, WorkflowCompensationEnds(true)];
    assert es[1..][1..] == [WorkflowCompensationEnds(true)] && es[1..][1..][1..] == [];
    assert Run(s3, []) && Exec(s3, []) == s3;
    assert Run(s2, es[1..][1..]) && Exec(s2, es[1..][1..]) == s3;
    assert Run(s1, es[1..]) && Exec(s1, es[1..]) == s3;
  }

  /** What remains of an update's work once it has been accepted: at most its task, its race and its compensation. */
  function Remaining(u: Update): nat {
    match u.handler
    case Racing(Running) => 3
    case Racing(_) => 2
    case Compensating(_) => 1
    case Finished(_) => 0
  }

  /** Until the workflow's exit is decided an unfinished update can be held up only by a task that has succeeded. */
  lemma HeldUpOnlyBySuccess(es: seq<Event>, id: Id) returns (e: Event)
    requires Run(Initial(), es)
    requires var s := Exec(Initial(), es); id in s.updates && Open(s) && !s.updates[id].handler.Finished?
    requires !(Exec(Initial(), es).exit.Pending? && Exec(Initial(), es).updates[id].handler == Racing(Succeeded))
    ensures Enabled(Exec(Initial(), es), e)
    ensures id in Apply(Exec(Initial(), es), e).updates
    ensures Remaining(Apply(Exec(Initial(), es), e).updates[id]) < Remaining(Exec(Initial(), es).updates[id])
  {
    var s := Exec(Initial(), es);
    RunKeepsInvariant(Initial(), es);
    match s.updates[id].handler
    case Racing(Running) => e := TaskEnds(id, false);
    case Racing(_) => e := RaceEnds(id);
    case Compensating(_) => e := UpdateCompensationEnds(id, true);
  }

  // ---------- The workflow object ----------

  /** Each method is the code between two awaits of run, of an update handler, or of a compensation. */
  class CompensatingWorkflow {
    var main: Main
    var workflowExit: Exit
    var updates: map<Id, Update>
    var updateStarted: bool
    var updateCompensationDone: bool
    var workflowCompensationDone: bool
    ghost var workflowAttempts: nat
    ghost var compensated: set<Id>

    ghost function View(): System
      reads this
    {
      System(main, workflowExit, updates, updateStarted, workflowAttempts,
             updateCompensationDone, workflowCompensationDone, compensated)
    }

    constructor ()
      ensures View() == Initial()
    {
      main, workflowExit, updates := Working, Pending, map[];
      updateStarted, updateCompensationDone, workflowCompensationDone := false, false, false;
      workflowAttempts, compensated := 0, {};
    }

    /** While the workflow compensates, an update is still accepted, but nobody waits for it. */
    method MyUpdate(id: Id)
      requires Enabled(View(), UpdateAccepted(id)) && Invariant(View())
      modifies this
      ensures View() == Apply(old(View()), UpdateAccepted(id)) && Invariant(View())
      ensures updates[id].early <==> workflowAttempts == 0
    {
      StepKeepsInvariant(View(), UpdateAccepted(id));
      updates := updates[id := Update(Racing(Running), 0, main != WorkflowCompensating)];
      updateStarted := true;
    }

    /** The race is over: the update's own outcome counts if there is one, whatever the workflow did. */
    method UpdateResumes(id: Id) returns (compensates: bool)
      requires Enabled(View(), RaceEnds(id)) && Invariant(View())
      modifies this
      ensures View() == Apply(old(View()), RaceEnds(id)) && Invariant(View())
      ensures compensates <==> !old(updates)[id].handler.task.Succeeded?
      ensures compensates <==> updates[id].attempts == 1
    {
      StepKeepsInvariant(View(), RaceEnds(id));
      var u := updates[id];
      if u.handler.task.Succeeded? {
        updates := updates[id := Update(Finished(Result), u.attempts, u.early)];
        compensates := false;
      } else {
        var reason := if u.handler.task.Failed? then OwnFailure else Aborted;
        updates := updates[id := Update(Compensating(reason), u.attempts + 1, u.early)];
        compensates := true;
      }
    }

    method UpdateCompensated(id: Id, ok: bool) returns (reply: Reply)
      requires Enabled(View(), UpdateCompensationEnds(id, ok)) && Invariant(View())
      modifies this
      ensures View() == Apply(old(View()), UpdateCompensationEnds(id, ok)) && Invariant(View())
      ensures updates[id].handler == Finished(reply) && updates[id].attempts == 1 && reply != Result
      ensures reply.CompensationError? <==> !ok
      ensures reply.AbortError? ==> workflowExit.ExceptionSet?
    {
      StepKeepsInvariant(View(), UpdateCompensationEnds(id, ok));
      var u := updates[id];
      if !ok {
        reply := CompensationError;
      } else {
        updateCompensationDone := true;
        compensated := compensated + {id};
        reply := if u.handler.reason.OwnFailure? then OwnError else AbortError;
      }
      updates := updates[id := Update(Finished(reply), u.attempts, u.early)];
    }

    /** Until now no update has replied with its result or been aborted. */
    method LogicSucceeded()
      requires Enabled(View(), WorkSucceeds) && Invariant(View())
      modifies this
      ensures View() == Apply(old(View()), WorkSucceeds) && Invariant(View())
      ensures forall id | id in updates ::
                updates[id].handler != Finished(Result) && updates[id].handler != Finished(AbortError)
    {
      StepKeepsInvariant(View(), WorkSucceeds);
      workflowExit := ResultSet;
      main := WaitingAfterSuccess;
    }

    /** From now on every update still racing can go on. */
    method LogicRaised()
      requires Enabled(View(), WorkCancelled) && Invariant(View())
      modifies this
      ensures View() == Apply(old(View()), WorkCancelled) && Invariant(View())
      ensures forall id | id in updates && updates[id].handler.Racing? :: Enabled(View(), RaceEnds(id))
    {
      StepKeepsInvariant(View(), WorkCancelled);
      workflowExit := ExceptionSet;
      main := WaitingAfterException;
    }

    /** All handlers have finished: return, or compensate. */
    method AllHandlersFinished() returns (compensates: bool)
      requires Enabled(View(), HandlersFinished) && Invariant(View())
      modifies this
      ensures View() == Apply(old(View()), HandlersFinished) && Invariant(View())
      ensures compensates <==> workflowExit.ExceptionSet?
      ensures forall id | id in updates && updates[id].early :: updates[id].handler.Finished?
    {
      StepKeepsInvariant(View(), HandlersFinished);
      if main.WaitingAfterSuccess? {
        main := Returned;
        compensates := false;
      } else {
        main := WorkflowCompensating;
        workflowAttempts := workflowAttempts + 1;
        compensates := true;
      }
    }

    /** The workflow raises; updates accepted while it compensated may be left unanswered. */
    method WorkflowCompensated(ok: bool)
      requires Enabled(View(), WorkflowCompensationEnds(ok)) && Invariant(View())
      modifies this
      ensures View() == Apply(old(View()), WorkflowCompensationEnds(ok)) && Invariant(View())
      ensures updateCompensationDone <==> ok || compensated != {}
      ensures forall id | id in updates && updates[id].early :: updates[id].handler.Finished?
    {
      StepKeepsInvariant(View(), WorkflowCompensationEnds(ok));
      if ok {
        updateCompensationDone := true;
        workflowCompensationDone := true;
      }
      main := Raised;
    }
  }
}
