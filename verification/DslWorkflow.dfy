/** The interpreter itself: DSLWorkflow, with the variables it updates in place. */
module DslWorkflow {
  import opened Wrappers
  import opened DslSemantics
  import DslConfluence
  import DslRuns

  datatype DslInput = DslInput(root: Statement, variables: Vars)

  class DSLWorkflow {
    var variables: Vars

    constructor (v: Vars)
      ensures variables == v
    {
      variables := v;
    }

    /** An activity has completed: its result is stored when the statement names one. */
    method StoreResult(a: Invocation, r: Value)
      modifies this
      ensures variables == old(variables) + Store(a, r)
    {
      if a.result.Some? && a.result.value != "" {
        variables := variables[a.result.value := r];
      }
    }

    /** Executes a statement when nothing else runs, the branches of a parallel node one after another. */
    method ExecuteStatement(act: Activities, stmt: Statement)
      modifies this
      ensures variables == Eval(act, stmt, old(variables))
      decreases stmt, 1
    {
      match stmt
      case Activity(a) =>
        var result := act(a.name, Arguments(a, variables));
        StoreResult(a, result);
      case Sequence(elements) => ExecuteAll(act, elements);
      case Parallel(branches) => ExecuteAll(act, branches);
    }

    method ExecuteAll(act: Activities, ss: seq<Statement>)
      modifies this
      ensures variables == EvalAll(act, ss, old(variables))
      decreases ss, 0
    {
      var i := 0;
      while i < |ss|
        invariant 0 <= i <= |ss|
        invariant EvalAll(act, ss[i..], variables) == EvalAll(act, ss, old(variables))
      {
        ExecuteStatement(act, ss[i]);
        assert ss[i..][1..] == ss[i + 1..];
        i := i + 1;
      }
    }

    /**
     Runs a program under the order of events that its history records: each entry is the leaf
     whose activity is scheduled or completes next. The run returns when its root completes.
     */
    method Run(act: Activities, input: DslInput, history: seq<Path>) returns (r: Option<Vars>)
      requires Schedule(act, Start(input.root, input.variables), history)
      modifies this
      ensures variables == Exec(act, Start(input.root, input.variables), history).vars
      ensures r == if |history| == 2 * |DslRuns.ActivitiesOf(input.root)| then Some(variables) else None
      ensures r.Some? && RaceFree(input.root) ==> r.value == Eval(act, input.root, input.variables)
    {
      variables := input.variables;
      var root := Spawn(input.root);
      var i := 0;
      while i < |history|
        invariant 0 <= i <= |history|
        invariant Schedule(act, Config(root, variables), history[i..])
        invariant Exec(act, Config(root, variables), history[i..])
                  == Exec(act, Start(input.root, input.variables), history)
      {
        var p := history[i];
        var effect := Effect(act, root, p);
        assert history[i..][1..] == history[i + 1..];
        root := Advance(root, variables, p);
        variables := variables + effect;
        i := i + 1;
      }
      assert history[i..] == [];
      DslRuns.RunLength(act, input.root, input.variables, history);
      if Complete(root) {
        r := Some(variables);
        if RaceFree(input.root) {
          DslConfluence.Confluence(act, input.root, input.variables, history);
        }
      } else {
        r := None;
      }
    }
  }
}
