/** The parallel program that ships with the interpreter, dsl/workflow2.yaml. */
module DslPrograms {
  import opened Wrappers
  import opened DslSemantics
  import opened DslConfluence

  function Call(name: string, arguments: seq<string>, result: string): Statement {
    Activity(Invocation(name, arguments, Some(result)))
  }

  function LeftBranch(): Statement {
    Sequence([Call("activity2", ["result1"], "result2"), Call("activity3", ["arg2", "result2"], "result3")])
  }

  function RightBranch(): Statement {
    Sequence([Call("activity4", ["result1"], "result4"), Call("activity5", ["arg3", "result4"], "result5")])
  }

  function ParallelProgram(): Statement {
    Sequence([
      Call("activity1", ["arg1"], "result1"),
      Parallel([LeftBranch(), RightBranch()]),
      Call("activity3", ["result3", "result5"], "result6")])
  }

  lemma PairFootprint(a: Statement, b: Statement)
    ensures Reads(Sequence([a, b])) == Reads(a) + Reads(b)
    ensures Writes(Sequence([a, b])) == Writes(a) + Writes(b)
  {
    assert [a, b][1..] == [b] && [b][1..] == [];
    assert ReadsAll([b]) == Reads(b) + ReadsAll([b][1..]);
    assert WritesAll([b]) == Writes(b) + WritesAll([b][1..]);
  }

  lemma BranchesIndependent()
    ensures Independent(LeftBranch(), RightBranch())
  {
    PairFootprint(Call("activity2", ["result1"], "result2"), Call("activity3", ["arg2", "result2"], "result3"));
    PairFootprint(Call("activity4", ["result1"], "result4"), Call("activity5", ["arg3", "result4"], "result5"));
    assert Writes(LeftBranch()) == {"result2", "result3"} && Writes(RightBranch()) == {"result4", "result5"};
    assert Reads(LeftBranch()) <= {"result1", "arg2", "result2"};
    assert Reads(RightBranch()) <= {"result1", "arg3", "result4"};
    assert "result2"[6] != "result3"[6] && "result2"[6] != "result4"[6] && "result2"[6] != "result5"[6];
    assert "result3"[6] != "result4"[6] && "result3"[6] != "result5"[6] && "result1"[6] == '1';
    assert "result4"[6] != "result2"[6] && "result5"[6] != "result1"[6] && "result4"[6] != "result1"[6];
    assert |"arg2"| == |"arg3"| == 4 && |"result1"| == 7;
  }

  lemma RaceFreePair(l: Statement, r: Statement)
    requires RaceFree(l) && RaceFree(r) && Independent(l, r)
    ensures RaceFree(Parallel([l, r]))
  {
    var bs := [l, r];
    assert bs[0] == l && bs[1] == r;
  }

  lemma ShippedProgramRaceFree()
    ensures RaceFree(ParallelProgram())
  {
    BranchesIndependent();
    RaceFreePair(LeftBranch(), RightBranch());
  }

  /** The shipped program has no race, so it returns the same variables under every schedule. */
  lemma ShippedProgramConfluent(act: Activities, v: Vars, ps: seq<Path>)
    requires Schedule(act, Start(ParallelProgram(), v), ps)
    requires Complete(Exec(act, Start(ParallelProgram(), v), ps).root)
    ensures RaceFree(ParallelProgram())
    ensures Exec(act, Start(ParallelProgram(), v), ps).vars == Eval(act, ParallelProgram(), v)
  {
    ShippedProgramRaceFree();
    Confluence(act, ParallelProgram(), v, ps);
  }
}
