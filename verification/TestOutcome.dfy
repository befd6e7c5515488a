/** What test.py does with each job: queues are first in, first out, and every result is the outcome of the one decision
    a worker took about the job. */
module TestOutcome {
  import opened TestRunner

  // ---- first in, first out ----

  /** What a step takes from the input queue. */
  function TakenIn(s: State, a: Action): seq<Job> {
    if a.Get? && s.input != [] then [s.input[0]] else []
  }

  /** The jobs taken from the input queue in the first m steps, in order. */
  ghost function Taken(states: seq<State>, actions: seq<Action>, m: nat): seq<Job>
    requires m <= |actions| < |states|
  {
    if m == 0 then [] else Taken(states, actions, m - 1) + TakenIn(states[m - 1], actions[m - 1])
  }

  /** Every job put by main: the tests as dispatched, then the breaks. */
  function PutByMain(c: Config, s: State): seq<Job>
    requires Dispatched(c, s) <= |c.jobs|
  {
    c.jobs[..Dispatched(c, s)] + seq(Sent(c, s), _ => BREAK_JOB)
  }

  lemma MainPuts(c: Config, s: State) returns (more: seq<Job>)
    requires Enabled(c, s, MainStep) && PhaseInv(c, s) && SentinelInv(c, s)
    ensures Dispatched(c, s) <= |c.jobs| && Dispatched(c, MainNext(c, s)) <= |c.jobs|
    ensures MainNext(c, s).input == s.input + more && PutByMain(c, MainNext(c, s)) == PutByMain(c, s) + more
  {
    var t := MainNext(c, s);
    if s.main.Dispatching? && s.main.k < |c.jobs| {
      assert c.jobs[..s.main.k + 1] == c.jobs[..s.main.k] + [c.jobs[s.main.k]];
      more := [c.jobs[s.main.k]];
    } else if s.main.Sending? && s.main.k < c.n {
      more := [BREAK_JOB];
    } else {
      more := [];
    }
    assert PutByMain(c, t) == PutByMain(c, s) + more;
  }

  /** One step: what is taken comes from the front, what is put goes to the back. */
  lemma InputStep(c: Config, s: State, a: Action) returns (more: seq<Job>)
    requires Inv(c, s) && Enabled(c, s, a)
    ensures TakenIn(s, a) + Next(c, s, a).input == s.input + more
    ensures Dispatched(c, s) <= |c.jobs| && Dispatched(c, Next(c, s, a)) <= |c.jobs|
    ensures PutByMain(c, Next(c, s, a)) == PutByMain(c, s) + more
  {
    hide MainNext, TestsInv, Conserved, SentinelInv;
    if a.MainStep? {
      more := MainPuts(c, s);
    } else {
      more := [];
      assert a.Get? ==> s.input == [s.input[0]] + s.input[1..];
    }
  }

  /** Workers take the jobs in the order main put them. */
  lemma {:induction false} TakenInOrder(c: Config, states: seq<State>, actions: seq<Action>, m: nat)
    requires ValidConfig(c) && IsRun(c, states, actions) && m <= |actions|
    ensures Dispatched(c, states[m]) <= |c.jobs|
    ensures Taken(states, actions, m) + states[m].input == PutByMain(c, states[m])
  {
    hide Enabled, Next, Inv, TakenIn, PutByMain, Dispatched;
    if m == 0 {
      NothingPut(c);
    } else {
      var s, a, taken := states[m - 1], actions[m - 1], Taken(states, actions, m - 1);
      TakenInOrder(c, states, actions, m - 1);
      RunInv(c, states, actions, m - 1);
      assert states[m - 1 + 1] == Next(c, s, a);
      var more := InputStep(c, s, a);
      Reassociate(taken, TakenIn(s, a), states[m].input, s.input, more);
    }
  }

  lemma NothingPut(c: Config)
    ensures Dispatched(c, Init(c)) == 0 && Init(c).input == [] && PutByMain(c, Init(c)) == []
  {
  }

  lemma Reassociate(taken: seq<Job>, first: seq<Job>, rest: seq<Job>, input: seq<Job>, more: seq<Job>)
    requires first + rest == input + more
    ensures taken + first + rest == taken + input + more
  {
    assert taken + first + rest == taken + (first + rest) == taken + (input + more);
  }

  /** What a step puts on the output queue. */
  function PutIn(s: State, a: Action): seq<Job> {
    if a.Put? && a.i < |s.workers| && s.workers[a.i].Putting? then [s.workers[a.i].job] else []
  }

  /** The jobs put on the output queue in the first m steps, in order. */
  ghost function PutByWorkers(states: seq<State>, actions: seq<Action>, m: nat): seq<Job>
    requires m <= |actions| < |states|
  {
    if m == 0 then [] else PutByWorkers(states, actions, m - 1) + PutIn(states[m - 1], actions[m - 1])
  }

  lemma OutputStep(c: Config, s: State, a: Action)
    requires Enabled(c, s, a)
    ensures Next(c, s, a).collected + Next(c, s, a).output == s.collected + s.output + PutIn(s, a)
  {
    if a.MainStep? && s.main.Collecting? && |s.collected| < |c.jobs| {
      assert s.output == [s.output[0]] + s.output[1..];
    }
  }

  /** Main collects the results in the order the workers put them. */
  lemma {:induction false} CollectedInOrder(c: Config, states: seq<State>, actions: seq<Action>, m: nat)
    requires IsRun(c, states, actions) && m <= |actions|
    ensures states[m].collected + states[m].output == PutByWorkers(states, actions, m)
  {
    if m > 0 {
      hide Enabled, Next, PutIn;
      CollectedInOrder(c, states, actions, m - 1);
      assert states[m - 1 + 1] == Next(c, states[m - 1], actions[m - 1]);
      OutputStep(c, states[m - 1], actions[m - 1]);
    }
  }

  // ---- one result for each job ----

  lemma {:induction false} QueuedOne(q: seq<Job>, k: nat)
    ensures Queued(q, true, Only(k)) > 0 <==> exists j :: j in q && j.id == k
    ensures Queued(q, true, Only(k)) <= 1 ==> forall j, j' :: j in q && j' in q && j.id == k == j'.id ==> j == j'
  {
    if q != [] {
      var n := |q| - 1;
      QueuedOne(q[..n], k);
      assert q == q[..n] + [q[n]];
    }
  }

  /** The result that came back for each dispatched job: there is exactly one. */
  lemma EachCameBackOnce(c: Config, s: State, k: nat)
    requires ValidConfig(c) && Reachable(c, s) && s.main.Done? && k < |c.jobs|
    ensures exists j :: j in s.collected && j.id == k
    ensures forall j, j' :: j in s.collected && j' in s.collected && j.id == k == j'.id ==> j == j'
    ensures forall j :: j in s.collected && j.id == k ==> Genuine(c, j)
  {
    hide Queued, Held, Inv;
    JoinPhase(c, s);
    ReachableInv(c, s);
    AtDone(c, s, k);
    QueuedOne(s.collected, k);
    DoneGenuine(c, s);
  }

  lemma AtDone(c: Config, s: State, k: nat)
    requires Inv(c, s) && s.main.Done? && k < |c.jobs| && s.input == [] && s.output == []
    ensures Queued(s.collected, true, Only(k)) == 1
  {
    HeldMember(s.workers, Only(k));
    assert Places(s, Only(k)) == 1;
  }

  lemma DoneGenuine(c: Config, s: State)
    requires Inv(c, s)
    ensures forall j :: j in s.collected ==> Genuine(c, j)
  {
    hide PhaseInv, SentinelInv, Conserved, Genuine;
  }

  // ---- how each result came about ----

  /** The job that becomes ready to be reported in this step, if one does. */
  function Emitted(s: State, a: Action): seq<Job> {
    match a
    case Finish(i, rc) =>
      if i < |s.workers| && s.workers[i].Running? then [s.workers[i].job.(returncode := rc)] else []
    case Decide(i) =>
      if i < |s.workers| && s.workers[i].Got? && Decision(s.workers[i].job, s.threadExit).Putting?
      then [Decision(s.workers[i].job, s.threadExit).job] else []
    case _ => []
  }

  function InHand(w: Worker): multiset<Job> {
    if w.Putting? then multiset{w.job} else multiset{}
  }

  function AllInHand(ws: seq<Worker>): multiset<Job> {
    if ws == [] then multiset{} else AllInHand(ws[..|ws| - 1]) + InHand(ws[|ws| - 1])
  }

  /** The jobs ready to be reported, on their way, or reported. */
  function Ready(s: State): multiset<Job> {
    AllInHand(s.workers) + multiset(s.output) + multiset(s.collected)
  }

  lemma {:induction false} InHandUpdate(ws: seq<Worker>, i: nat, w: Worker, x: Job)
    requires i < |ws|
    ensures AllInHand(ws[i := w])[x] + InHand(ws[i])[x] == AllInHand(ws)[x] + InHand(w)[x]
  {
    var n := |ws| - 1;
    if i < n {
      InHandUpdate(ws[..n], i, w, x);
      assert ws[i := w][..n] == ws[..n][i := w];
    } else {
      assert ws[i := w][..n] == ws[..n];
    }
  }

  lemma ReadyMain(c: Config, s: State)
    requires Enabled(c, s, MainStep)
    ensures Ready(MainNext(c, s)) == Ready(s)
  {
    hide AllInHand;
    if s.main.Collecting? && |s.collected| < |c.jobs| {
      assert s.output == [s.output[0]] + s.output[1..];
    }
  }

  /** A worker puts its job on the output queue: ready before, ready after. */
  lemma ReadyPut(s: State, i: nat, x: Job)
    requires i < |s.workers| && s.workers[i].Putting?
    ensures Ready(s.(output := s.output + [s.workers[i].job], workers := s.workers[i := Waiting]))[x] == Ready(s)[x]
  {
    hide AllInHand;
    InHandUpdate(s.workers, i, Waiting, x);
  }

  /** A worker that is not putting comes to hold w. */
  lemma ReadyHand(s: State, i: nat, w: Worker, x: Job)
    requires i < |s.workers| && !s.workers[i].Putting?
    ensures Ready(s.(workers := s.workers[i := w]))[x] == Ready(s)[x] + InHand(w)[x]
  {
    hide AllInHand;
    InHandUpdate(s.workers, i, w, x);
  }

  lemma ReadyStep(c: Config, s: State, a: Action, x: Job)
    requires Enabled(c, s, a)
    ensures Ready(Next(c, s, a))[x] == Ready(s)[x] + multiset(Emitted(s, a))[x]
  {
    hide AllInHand, MainNext, Decision, Ready;
    match a
    case MainStep => ReadyMain(c, s);
    case Get(i) =>
      ReadyHand(s.(input := s.input[1..]), i, Got(s.input[0]), x);
      ReadyIgnoresInput(s, s.input[1..]);
    case Decide(i) => ReadyHand(s, i, Decision(s.workers[i].job, s.threadExit), x);
    case Finish(i, rc) => ReadyHand(s, i, Putting(s.workers[i].job.(returncode := rc)), x);
    case Put(i) => ReadyPut(s, i, x);
    case Interrupt => ReadyIgnoresInput(s, s.input);
  }

  lemma ReadyIgnoresInput(s: State, input: seq<Job>)
    ensures Ready(s.(input := input)) == Ready(s) == Ready(s.(threadExit := false)) == Ready(s.(threadExit := true))
  {
  }

  /** The steps, of the first n, in which j became ready. */
  ghost function EmitSteps(states: seq<State>, actions: seq<Action>, n: nat, j: Job): set<nat>
    requires n <= |actions| < |states|
  {
    set m: nat | m < n && Emitted(states[m], actions[m]) == [j]
  }

  lemma {:induction false} NoneInHand(ws: seq<Worker>)
    requires forall i :: 0 <= i < |ws| ==> !ws[i].Putting?
    ensures AllInHand(ws) == multiset{}
  {
    if ws != [] {
      NoneInHand(ws[..|ws| - 1]);
    }
  }

  /** A job is ready as often as there are steps that made it so. */
  lemma {:induction false} ReadyRun(c: Config, states: seq<State>, actions: seq<Action>, n: nat, j: Job)
    requires IsRun(c, states, actions) && n <= |actions|
    ensures Ready(states[n])[j] == |EmitSteps(states, actions, n, j)|
  {
    hide Enabled, Next, Emitted, Ready, EmitSteps;
    if n == 0 {
      ReadyAtStart(c);
      NoEmitSteps(states, actions, j);
    } else {
      var s, a := states[n - 1], actions[n - 1];
      ReadyRun(c, states, actions, n - 1, j);
      assert states[n - 1 + 1] == Next(c, s, a);
      ReadyStep(c, s, a, j);
      AtMostOneEmitted(s, a);
      EmitStepsGrow(states, actions, n, j);
    }
  }

  lemma NoEmitSteps(states: seq<State>, actions: seq<Action>, j: Job)
    requires |actions| < |states|
    ensures EmitSteps(states, actions, 0, j) == {}
  {
  }

  lemma EmitStepsGrow(states: seq<State>, actions: seq<Action>, n: nat, j: Job)
    requires 0 < n <= |actions| < |states|
    ensures |EmitSteps(states, actions, n, j)| ==
      |EmitSteps(states, actions, n - 1, j)| + if Emitted(states[n - 1], actions[n - 1]) == [j] then 1 else 0
  {
    hide Emitted;
    var before := EmitSteps(states, actions, n - 1, j);
    assert EmitSteps(states, actions, n, j) ==
      if Emitted(states[n - 1], actions[n - 1]) == [j] then before + {n - 1} else before;
  }

  lemma ReadyAtStart(c: Config)
    ensures Ready(Init(c)) == multiset{}
  {
    NoneInHand(Init(c).workers);
  }

  lemma AtMostOneEmitted(s: State, a: Action)
    ensures |Emitted(s, a)| <= 1
    ensures forall j :: multiset(Emitted(s, a))[j] == if Emitted(s, a) == [j] then 1 else 0
  {
  }

  /** In step m worker i finishes running test k, with that return code. */
  ghost predicate FinishesAt(states: seq<State>, actions: seq<Action>, m: nat, i: nat, rc: int, k: nat)
    requires |actions| < |states|
  {
    && m < |actions| && actions[m] == Finish(i, rc) && i < |states[m].workers|
    && states[m].workers[i].Running? && states[m].workers[i].job.id == k
  }

  /** In step m worker i, about to start on job k, sees the interrupt flag set. */
  ghost predicate InterruptedAt(states: seq<State>, actions: seq<Action>, m: nat, i: nat, k: nat)
    requires |actions| < |states|
  {
    && m < |actions| && actions[m] == Decide(i) && i < |states[m].workers| && states[m].threadExit
    && states[m].workers[i].Got? && !states[m].workers[i].job.isBreak && states[m].workers[i].job.id == k
  }

  /** How a step makes a job ready. */
  lemma EmittedHow(c: Config, states: seq<State>, actions: seq<Action>, m: nat, j: Job)
    requires ValidConfig(c) && IsRun(c, states, actions) && m < |actions| && Emitted(states[m], actions[m]) == [j]
    ensures j.id < |c.jobs| && match actions[m]
      case Finish(i, rc) => FinishesAt(states, actions, m, i, rc, j.id) && j == c.jobs[j.id].(returncode := rc) && !j.isBreak && !j.isSkip
      case Decide(i) =>
        if states[m].threadExit then InterruptedAt(states, actions, m, i, j.id) && j == c.jobs[j.id].(isBreak := true)
        else j == c.jobs[j.id] && !j.isBreak && j.isSkip
      case _ => false
  {
    hide PhaseInv, SentinelInv, Conserved;
    RunInv(c, states, actions, m);
    var s, a := states[m], actions[m];
    assert WorkerOk(c, s.workers[a.i]);
  }

  lemma {:induction false} OccursOnce(q: seq<Job>, j: Job)
    ensures multiset(q)[j] <= Queued(q, true, Only(j.id))
  {
    if q != [] {
      OccursOnce(q[..|q| - 1], j);
      assert q == q[..|q| - 1] + [q[|q| - 1]];
    }
  }

  /** At the end a job was collected exactly when it became ready in some step, and then in that step only. */
  lemma CollectedIffEmitted(c: Config, states: seq<State>, actions: seq<Action>, j: Job)
    requires ValidConfig(c) && IsRun(c, states, actions) && states[|actions|].main.Done?
    ensures j in states[|actions|].collected <==> exists m: nat :: m < |actions| && Emitted(states[m], actions[m]) == [j]
    ensures forall m: nat, m': nat :: m < |actions| && m' < |actions| && Emitted(states[m], actions[m]) == [j] == Emitted(states[m'], actions[m']) ==> m == m'
  {
    hide Emitted, Enabled, Next, Queued, Held, Inv;
    var s := states[|actions|];
    assert states[|states| - 1] == s && Reachable(c, s);
    JoinPhase(c, s);
    NoneInHand(s.workers);
    ReadyRun(c, states, actions, |actions|, j);
    var steps := EmitSteps(states, actions, |actions|, j);
    assert multiset(s.collected)[j] == |steps|;
    OccursOnce(s.collected, j);
    CollectedIds(c, s, j.id);
    forall m: nat, m': nat | m in steps && m' in steps ensures m == m' {
      if m != m' {
        assert {m, m'} <= steps;
        TwoInSet(steps, m, m');
      }
    }
    forall m: nat | m < |actions| ensures m in steps <==> Emitted(states[m], actions[m]) == [j] {
    }
  }

  lemma TwoInSet(s: set<nat>, a: nat, b: nat)
    requires a in s && b in s && a != b
    ensures |s| >= 2
  {
    assert s == (s - {a, b}) + {a, b};
  }

  lemma CollectedIds(c: Config, s: State, k: nat)
    requires ValidConfig(c) && Reachable(c, s) && s.main.Done?
    ensures Queued(s.collected, true, Only(k)) <= 1
  {
    hide Queued, Held;
    ReachableInv(c, s);
    assert Places(s, Only(k)) <= 1;
  }

  /** A result is neither marked nor skipped exactly when its test was run; it was run once, and the result is the
      dispatched job with the return code of that run. A result is marked exactly when a worker saw the interrupt before
      starting on it. What is marked or skipped is as it was dispatched, but for the mark. */
  lemma ResultIsRun(c: Config, states: seq<State>, actions: seq<Action>, j: Job)
    requires ValidConfig(c) && IsRun(c, states, actions) && states[|actions|].main.Done? && j in states[|actions|].collected
    ensures j.id < |c.jobs| && (j.isSkip <==> c.jobs[j.id].isSkip)
    ensures !j.isBreak && !j.isSkip <==> exists m: nat, i: nat, rc: int :: FinishesAt(states, actions, m, i, rc, j.id)
    ensures forall m: nat, i: nat, rc: int :: FinishesAt(states, actions, m, i, rc, j.id) ==> j == c.jobs[j.id].(returncode := rc)
    ensures forall m: nat, i: nat, rc: int, m': nat, i': nat, rc': int ::
      FinishesAt(states, actions, m, i, rc, j.id) && FinishesAt(states, actions, m', i', rc', j.id) ==> m == m'
    ensures j.isBreak <==> exists m: nat, i: nat :: InterruptedAt(states, actions, m, i, j.id)
    ensures j.isBreak || j.isSkip ==> j == c.jobs[j.id].(isBreak := j.isBreak)
  {
    hide Queued, Held, Inv, Enabled, Next, Emitted, FinishesAt, InterruptedAt, Reachable;
    CollectedIffEmitted(c, states, actions, j);
    var m0: nat :| m0 < |actions| && Emitted(states[m0], actions[m0]) == [j];
    EmittedHow(c, states, actions, m0, j);
    forall m: nat, i: nat, rc: int | FinishesAt(states, actions, m, i, rc, j.id)
      ensures m == m0 && j == c.jobs[j.id].(returncode := rc) && !j.isBreak && !j.isSkip
    {
      FinishEmits(c, states, actions, m, i, rc, j);
    }
    forall m: nat, i: nat | InterruptedAt(states, actions, m, i, j.id) ensures j.isBreak {
      InterruptEmits(c, states, actions, m, i, j);
    }
  }

  /** The result with an id is the one job that any step made ready under that id. */
  lemma OneOutcome(c: Config, states: seq<State>, actions: seq<Action>, m: nat, j: Job, j': Job)
    requires ValidConfig(c) && IsRun(c, states, actions) && states[|actions|].main.Done? && j in states[|actions|].collected
    requires m < |actions| && Emitted(states[m], actions[m]) == [j'] && j'.id == j.id
    ensures j' == j && forall n: nat :: n < |actions| && Emitted(states[n], actions[n]) == [j] ==> n == m
  {
    hide Queued, Held, Inv, Enabled, Next, Emitted;
    var s := states[|actions|];
    assert states[|states| - 1] == s && Reachable(c, s);
    CollectedIffEmitted(c, states, actions, j');
    EmittedHow(c, states, actions, m, j');
    EachCameBackOnce(c, s, j.id);
  }

  lemma FinishEmits(c: Config, states: seq<State>, actions: seq<Action>, m: nat, i: nat, rc: int, j: Job)
    requires ValidConfig(c) && IsRun(c, states, actions) && states[|actions|].main.Done? && j in states[|actions|].collected
    requires FinishesAt(states, actions, m, i, rc, j.id)
    ensures j.id < |c.jobs| && j == c.jobs[j.id].(returncode := rc) && !j.isBreak && !j.isSkip
    ensures forall n: nat :: n < |actions| && Emitted(states[n], actions[n]) == [j] ==> n == m
  {
    hide Inv;
    var j' := states[m].workers[i].job.(returncode := rc);
    assert Emitted(states[m], actions[m]) == [j'];
    OneOutcome(c, states, actions, m, j, j');
    EmittedHow(c, states, actions, m, j);
  }

  lemma InterruptEmits(c: Config, states: seq<State>, actions: seq<Action>, m: nat, i: nat, j: Job)
    requires ValidConfig(c) && IsRun(c, states, actions) && states[|actions|].main.Done? && j in states[|actions|].collected
    requires InterruptedAt(states, actions, m, i, j.id)
    ensures j.isBreak
  {
    hide Inv;
    var j' := states[m].workers[i].job.(isBreak := true);
    assert Emitted(states[m], actions[m]) == [j'];
    OneOutcome(c, states, actions, m, j, j');
  }
}
