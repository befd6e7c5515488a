/** The report and the exit code of test.py, over the results of any run of its workers. */
module TestReport {
  import opened Sequences
  import opened TestRunner
  import opened TestOutcome

  datatype Tally = Tally(passed: nat, failed: nat, failedNames: seq<string>, crashed: nat, crashedNames: seq<string>,
                         valgrind: nat, valgrindNames: seq<string>, skipped: nat, skippedNames: seq<string>)

  /** Where the results of each kind are. */
  datatype Where = Where(passed: seq<nat>, failed: seq<nat>, valgrind: seq<nat>, crashed: seq<nat>, skipped: seq<nat>,
                         interrupted: seq<nat>)

  predicate Ran(j: Job, code: int) {
    !j.isBreak && !j.isSkip && j.returncode == code
  }

  predicate Passed(j: Job) { Ran(j, 0) }

  predicate Failed(j: Job) { Ran(j, 1) }

  predicate Valgrind(j: Job) { Ran(j, 2) }

  predicate Crashed(j: Job) { !j.isBreak && !j.isSkip && !(0 <= j.returncode <= 2) }

  predicate Skipped(j: Job) { !j.isBreak && j.isSkip }

  predicate Interrupted(j: Job) { j.isBreak }

  ghost predicate Sorted(results: seq<Job>, at: Where) {
    && Exactly(results, at.passed, Passed) && Exactly(results, at.failed, Failed) && Exactly(results, at.valgrind, Valgrind)
    && Exactly(results, at.crashed, Crashed) && Exactly(results, at.skipped, Skipped)
    && Exactly(results, at.interrupted, Interrupted)
    && |at.passed| + |at.failed| + |at.valgrind| + |at.crashed| + |at.skipped| + |at.interrupted| == |results|
  }

  /** The display names at these positions. */
  predicate Names(results: seq<Job>, at: seq<nat>, names: seq<string>) {
    |names| == |at| && forall n :: 0 <= n < |at| ==> at[n] < |results| && names[n] == results[at[n]].name
  }

  /** The display names at these positions, each with the reason in brackets. */
  predicate NamesWithReasons(results: seq<Job>, at: seq<nat>, names: seq<string>) {
    |names| == |at| && forall n :: 0 <= n < |at| ==>
      at[n] < |results| && names[n] == results[at[n]].name + " (" + results[at[n]].skipReason + ")"
  }

  ghost predicate Tallied(results: seq<Job>, at: Where, t: Tally) {
    && t.passed == |at.passed| && t.failed == |at.failed| && t.valgrind == |at.valgrind|
    && t.crashed == |at.crashed| && t.skipped == |at.skipped|
    && Names(results, at.failed, t.failedNames) && Names(results, at.valgrind, t.valgrindNames)
    && Names(results, at.crashed, t.crashedNames) && NamesWithReasons(results, at.skipped, t.skippedNames)
  }

  /** One more result goes to the end of the positions of its own kind. */
  function Place(at: Where, n: nat, j: Job): Where {
    if j.isBreak then at.(interrupted := at.interrupted + [n])
    else if j.isSkip then at.(skipped := at.skipped + [n])
    else if j.returncode == 0 then at.(passed := at.passed + [n])
    else if j.returncode == 1 then at.(failed := at.failed + [n])
    else if j.returncode == 2 then at.(valgrind := at.valgrind + [n])
    else at.(crashed := at.crashed + [n])
  }

  /** What one result does to the counters and lists. */
  function Add(t: Tally, j: Job): Tally {
    if j.isBreak then t
    else if j.isSkip then
      t.(skipped := t.skipped + 1, skippedNames := t.skippedNames + [j.name + " (" + j.skipReason + ")"])
    else if j.returncode == 0 then t.(passed := t.passed + 1)
    else if j.returncode == 1 then t.(failed := t.failed + 1, failedNames := t.failedNames + [j.name])
    else if j.returncode == 2 then t.(valgrind := t.valgrind + 1, valgrindNames := t.valgrindNames + [j.name])
    else t.(crashed := t.crashed + 1, crashedNames := t.crashedNames + [j.name])
  }

  lemma SortedStep(results: seq<Job>, at: Where, j: Job)
    requires Sorted(results, at)
    ensures Sorted(results + [j], Place(at, |results|, j))
  {
    hide Exactly;
    ExactlyStep(results, j, at.passed, Passed);
    ExactlyStep(results, j, at.failed, Failed);
    ExactlyStep(results, j, at.valgrind, Valgrind);
    ExactlyStep(results, j, at.crashed, Crashed);
    ExactlyStep(results, j, at.skipped, Skipped);
    ExactlyStep(results, j, at.interrupted, Interrupted);
  }

  lemma NamesStep(results: seq<Job>, j: Job, at: seq<nat>, names: seq<string>)
    ensures Names(results, at, names) ==> Names(results + [j], at, names) && Names(results + [j], at + [|results|], names + [j.name])
    ensures NamesWithReasons(results, at, names) ==>
      && NamesWithReasons(results + [j], at, names)
      && NamesWithReasons(results + [j], at + [|results|], names + [j.name + " (" + j.skipReason + ")"])
  {
  }

  lemma TalliedStep(results: seq<Job>, at: Where, t: Tally, j: Job)
    requires Tallied(results, at, t)
    ensures Tallied(results + [j], Place(at, |results|, j), Add(t, j))
  {
    hide Names, NamesWithReasons;
    NamesStep(results, j, at.failed, t.failedNames);
    NamesStep(results, j, at.valgrind, t.valgrindNames);
    NamesStep(results, j, at.crashed, t.crashedNames);
    NamesStep(results, j, at.skipped, t.skippedNames);
  }

  lemma NothingTallied()
    ensures Sorted([], Where([], [], [], [], [], []))
    ensures Tallied([], Where([], [], [], [], [], []), Tally(0, 0, [], 0, [], 0, [], 0, []))
  {
  }

  /** The loop over the results: counters and name lists, one result at a time. */
  method RunTally(results: seq<Job>) returns (t: Tally, ghost at: Where)
    ensures Sorted(results, at) && Tallied(results, at, t)
  {
    hide Sorted, Tallied;
    t, at := Tally(0, 0, [], 0, [], 0, [], 0, []), Where([], [], [], [], [], []);
    NothingTallied();
    for i := 0 to |results|
      invariant Sorted(results[..i], at) && Tallied(results[..i], at, t)
    {
      var job := results[i];
      assert results[..i + 1] == results[..i] + [job];
      SortedStep(results[..i], at, job);
      TalliedStep(results[..i], at, t, job);
      at := Place(at, i, job);
      if job.isBreak {
        continue;
      }
      if job.isSkip {
        t := t.(skipped := t.skipped + 1, skippedNames := t.skippedNames + [job.name + " (" + job.skipReason + ")"]);
      } else if job.returncode == 0 {
        t := t.(passed := t.passed + 1);
      } else if job.returncode == 1 {
        t := t.(failed := t.failed + 1, failedNames := t.failedNames + [job.name]);
      } else if job.returncode == 2 {
        t := t.(valgrind := t.valgrind + 1, valgrindNames := t.valgrindNames + [job.name]);
      } else {
        t := t.(crashed := t.crashed + 1, crashedNames := t.crashedNames + [job.name]);
      }
    }
    assert results[..|results|] == results;
  }

  // ---- the kinds, over the fields of the results ----

  lemma PassedPositions(results: seq<Job>, at: seq<nat>)
    requires Exactly(results, at, Passed)
    ensures Increasing(at) && forall i :: i in at <==> 0 <= i < |results| && !results[i].isBreak && !results[i].isSkip && results[i].returncode == 0
    ensures |set i | 0 <= i < |results| && !results[i].isBreak && !results[i].isSkip && results[i].returncode == 0| == |at|
  {
    IncreasingSize(at, set i | 0 <= i < |results| && !results[i].isBreak && !results[i].isSkip && results[i].returncode == 0);
  }

  lemma FailedPositions(results: seq<Job>, at: seq<nat>)
    requires Exactly(results, at, Failed)
    ensures Increasing(at) && forall i :: i in at <==> 0 <= i < |results| && !results[i].isBreak && !results[i].isSkip && results[i].returncode == 1
    ensures |set i | 0 <= i < |results| && !results[i].isBreak && !results[i].isSkip && results[i].returncode == 1| == |at|
  {
    IncreasingSize(at, set i | 0 <= i < |results| && !results[i].isBreak && !results[i].isSkip && results[i].returncode == 1);
  }

  lemma ValgrindPositions(results: seq<Job>, at: seq<nat>)
    requires Exactly(results, at, Valgrind)
    ensures Increasing(at) && forall i :: i in at <==> 0 <= i < |results| && !results[i].isBreak && !results[i].isSkip && results[i].returncode == 2
    ensures |set i | 0 <= i < |results| && !results[i].isBreak && !results[i].isSkip && results[i].returncode == 2| == |at|
  {
    IncreasingSize(at, set i | 0 <= i < |results| && !results[i].isBreak && !results[i].isSkip && results[i].returncode == 2);
  }

  lemma CrashedPositions(results: seq<Job>, at: seq<nat>)
    requires Exactly(results, at, Crashed)
    ensures Increasing(at) && forall i :: i in at <==> 0 <= i < |results| && !results[i].isBreak && !results[i].isSkip && results[i].returncode !in {0, 1, 2}
    ensures |set i | 0 <= i < |results| && !results[i].isBreak && !results[i].isSkip && results[i].returncode !in {0, 1, 2}| == |at|
  {
    IncreasingSize(at, set i | 0 <= i < |results| && !results[i].isBreak && !results[i].isSkip && results[i].returncode !in {0, 1, 2});
  }

  lemma SkippedPositions(results: seq<Job>, at: seq<nat>)
    requires Exactly(results, at, Skipped)
    ensures Increasing(at) && forall i :: i in at <==> 0 <= i < |results| && !results[i].isBreak && results[i].isSkip
    ensures |set i | 0 <= i < |results| && !results[i].isBreak && results[i].isSkip| == |at|
  {
    IncreasingSize(at, set i | 0 <= i < |results| && !results[i].isBreak && results[i].isSkip);
  }

  lemma InterruptedPositions(results: seq<Job>, at: seq<nat>)
    requires Exactly(results, at, Interrupted)
    ensures Increasing(at) && forall i :: i in at <==> 0 <= i < |results| && results[i].isBreak
    ensures |set i | 0 <= i < |results| && results[i].isBreak| == |at|
  {
    IncreasingSize(at, set i | 0 <= i < |results| && results[i].isBreak);
  }

  /** Each counter is the number of results of its kind, and each list holds the names of those results in order. */
  method TallyResults(results: seq<Job>) returns (t: Tally, ghost at: Where)
    ensures t.passed == |set i | 0 <= i < |results| && !results[i].isBreak && !results[i].isSkip && results[i].returncode == 0|
    ensures t.failed == |set i | 0 <= i < |results| && !results[i].isBreak && !results[i].isSkip && results[i].returncode == 1|
    ensures t.valgrind == |set i | 0 <= i < |results| && !results[i].isBreak && !results[i].isSkip && results[i].returncode == 2|
    ensures t.crashed == |set i | 0 <= i < |results| && !results[i].isBreak && !results[i].isSkip && results[i].returncode !in {0, 1, 2}|
    ensures t.skipped == |set i | 0 <= i < |results| && !results[i].isBreak && results[i].isSkip|
    ensures t.passed + t.failed + t.valgrind + t.crashed + t.skipped + |set i | 0 <= i < |results| && results[i].isBreak| == |results|
    ensures Increasing(at.failed) && Names(results, at.failed, t.failedNames)
    ensures forall i :: i in at.failed <==> 0 <= i < |results| && !results[i].isBreak && !results[i].isSkip && results[i].returncode == 1
    ensures Increasing(at.valgrind) && Names(results, at.valgrind, t.valgrindNames)
    ensures forall i :: i in at.valgrind <==> 0 <= i < |results| && !results[i].isBreak && !results[i].isSkip && results[i].returncode == 2
    ensures Increasing(at.crashed) && Names(results, at.crashed, t.crashedNames)
    ensures forall i :: i in at.crashed <==> 0 <= i < |results| && !results[i].isBreak && !results[i].isSkip && results[i].returncode !in {0, 1, 2}
    ensures Increasing(at.skipped) && NamesWithReasons(results, at.skipped, t.skippedNames)
    ensures forall i :: i in at.skipped <==> 0 <= i < |results| && !results[i].isBreak && results[i].isSkip
  {
    hide Exactly, Names, NamesWithReasons, Increasing;
    t, at := RunTally(results);
    PassedPositions(results, at.passed);
    FailedPositions(results, at.failed);
    ValgrindPositions(results, at.valgrind);
    CrashedPositions(results, at.crashed);
    SkippedPositions(results, at.skipped);
    InterruptedPositions(results, at.interrupted);
  }

  // ---- the exit code ----

  /** What main returns to the shell: success only if everything dispatched was passed or skipped. */
  function ExitCode(t: Tally, total: nat): int {
    if t.passed + t.skipped == total then 0 else 1
  }

  predicate Good(job: Job) {
    !job.isBreak && (job.isSkip || job.returncode == 0)
  }

  /** The exit code is 0 exactly when each result is unmarked and was skipped or returned 0, and 1 otherwise. */
  lemma ExitZero(results: seq<Job>, at: Where, t: Tally)
    requires Sorted(results, at) && Tallied(results, at, t)
    ensures ExitCode(t, |results|) == if forall j :: j in results ==> Good(j) then 0 else 1
  {
    if ExitCode(t, |results|) == 0 {
      assert at.failed == [] && at.valgrind == [] && at.crashed == [] && at.interrupted == [];
      forall i | 0 <= i < |results| ensures Good(results[i]) {
        assert i !in at.failed && i !in at.valgrind && i !in at.crashed && i !in at.interrupted;
      }
    } else {
      var bad := at.failed + at.valgrind + at.crashed + at.interrupted;
      assert bad != [];
      var i := bad[0];
      assert i in at.failed || i in at.valgrind || i in at.crashed || i in at.interrupted;
      assert results[i] in results && !Good(results[i]);
    }
  }

  /** The test was run, and returned 0; or it was to be skipped and came back unmarked. */
  ghost predicate WentWell(c: Config, states: seq<State>, actions: seq<Action>, k: nat)
    requires |actions| < |states| && k < |c.jobs|
  {
    if c.jobs[k].isSkip then exists j :: j in states[|actions|].collected && j.id == k && !j.isBreak
    else exists m: nat, i: nat :: FinishesAt(states, actions, m, i, 0, k)
  }

  lemma GoodIffWentWell(c: Config, states: seq<State>, actions: seq<Action>, j: Job)
    requires ValidConfig(c) && IsRun(c, states, actions) && states[|actions|].main.Done? && j in states[|actions|].collected
    ensures j.id < |c.jobs| && (Good(j) <==> WentWell(c, states, actions, j.id))
  {
    hide FinishesAt, Enabled, Next, InterruptedAt;
    ResultIsRun(c, states, actions, j);
    AtEnd(c, states, actions);
    EachCameBackOnce(c, states[|actions|], j.id);
  }

  lemma AtEnd(c: Config, states: seq<State>, actions: seq<Action>)
    requires IsRun(c, states, actions)
    ensures Reachable(c, states[|actions|])
  {
    assert states[|states| - 1] == states[|actions|];
  }

  lemma AllGoodIff(c: Config, states: seq<State>, actions: seq<Action>)
    requires ValidConfig(c) && IsRun(c, states, actions) && states[|actions|].main.Done?
    ensures
      var results := states[|actions|].collected;
      && |results| == |c.jobs|
      && ((forall j :: j in results ==> Good(j)) <==> forall k: nat :: k < |c.jobs| ==> WentWell(c, states, actions, k))
  {
    hide Enabled, Next, WentWell, Good, Reachable;
    var s := states[|actions|];
    AtEnd(c, states, actions);
    JoinPhase(c, s);
    forall j | j in s.collected ensures j.id < |c.jobs| && (Good(j) <==> WentWell(c, states, actions, j.id)) {
      GoodIffWentWell(c, states, actions, j);
    }
    if forall j :: j in s.collected ==> Good(j) {
      forall k: nat | k < |c.jobs| ensures WentWell(c, states, actions, k) {
        EachCameBackOnce(c, s, k);
        var j :| j in s.collected && j.id == k;
        assert Good(j);
      }
    }
  }

  /** At the end of any run as many results are reported as jobs were dispatched, and the exit code is 0 exactly when
      every test that was not to be skipped was run and returned 0, and every other came back unmarked. */
  method FinalReport(c: Config, ghost states: seq<State>, ghost actions: seq<Action>, results: seq<Job>)
    returns (t: Tally, code: int)
    requires ValidConfig(c) && IsRun(c, states, actions) && states[|actions|].main.Done? && results == states[|actions|].collected
    ensures |results| == |c.jobs|
    ensures code == if forall k: nat :: k < |c.jobs| ==> WentWell(c, states, actions, k) then 0 else 1
  {
    hide IsRun, WentWell, Sorted, Tallied, Good, ExitCode;
    ghost var at: Where;
    t, at := RunTally(results);
    code := ExitCode(t, |c.jobs|);
    ExitZero(results, at, t);
    AllGoodIff(c, states, actions);
  }
}
