/** The concurrent test runner of test.py: one main thread, n workers, two FIFO queues and an interrupt flag.
    Each queue operation and each read of the flag is one atomic step; any interleaving of steps is a run. */
module TestRunner {

  /** A Job object. `id` stands for object identity: the position in dispatch order. */
  datatype Job = Job(id: nat, name: string, skipReason: string, isBreak: bool, isSkip: bool, returncode: int)

  datatype Worker =
    | Waiting              // about to take from the input queue
    | Got(job: Job)        // has taken a job, nothing decided yet
    | Running(job: Job)    // in run_job_synchronously
    | Putting(job: Job)    // about to put the job on the output queue
    | Returned

  datatype Main =
    | Dispatching(k: nat)  // k jobs put so far
    | Sending(k: nat)      // k break sentinels put so far
    | Collecting
    | Joining(k: nat)      // k threads joined so far
    | Done

  datatype Config = Config(jobs: seq<Job>, n: nat)

  datatype State = State(main: Main, input: seq<Job>, workers: seq<Worker>, output: seq<Job>,
                         collected: seq<Job>, threadExit: bool)

  datatype Action =
    | MainStep
    | Get(i: nat)
    | Decide(i: nat)
    | Finish(i: nat, rc: int)
    | Put(i: nat)
    | Interrupt

  const BREAK_JOB := Job(0, "", "", true, false, 0)

  /** What the dispatch code builds: numbered jobs, none of them a break. */
  predicate ValidConfig(c: Config) {
    forall k :: 0 <= k < |c.jobs| ==> c.jobs[k].id == k && !c.jobs[k].isBreak
  }

  function Init(c: Config): State {
    State(Dispatching(0), [], seq(c.n, _ => Waiting), [], [], false)
  }

  // ---- steps ----

  predicate Enabled(c: Config, s: State, a: Action) {
    match a
    case MainStep =>
      (match s.main
       case Dispatching(_) => true
       case Sending(_) => true
       case Collecting => |s.collected| >= |c.jobs| || s.output != []
       case Joining(k) => k >= |s.workers| || s.workers[k].Returned?
       case Done => false)
    case Get(i) => i < |s.workers| && s.workers[i].Waiting? && s.input != []
    case Decide(i) => i < |s.workers| && s.workers[i].Got?
    case Finish(i, _) => i < |s.workers| && s.workers[i].Running?
    case Put(i) => i < |s.workers| && s.workers[i].Putting?
    case Interrupt => true
  }

  function MainNext(c: Config, s: State): State
    requires Enabled(c, s, MainStep)
  {
    match s.main
    case Dispatching(k) =>
      if k < |c.jobs| then s.(input := s.input + [c.jobs[k]], main := Dispatching(k + 1))
      else s.(main := Sending(0))
    case Sending(k) =>
      if k < c.n then s.(input := s.input + [BREAK_JOB], main := Sending(k + 1))
      else s.(main := Collecting)
    case Collecting =>
      if |s.collected| < |c.jobs| then s.(output := s.output[1..], collected := s.collected + [s.output[0]])
      else s.(main := Joining(0))
    case Joining(k) =>
      if k < |s.workers| then s.(main := Joining(k + 1))
      else s.(main := Done)
  }

  /** What a worker does with the job it has just taken. */
  function Decision(job: Job, threadExit: bool): Worker {
    if job.isBreak then Returned
    else if threadExit then Putting(job.(isBreak := true))
    else if job.isSkip then Putting(job)
    else Running(job)
  }

  function Next(c: Config, s: State, a: Action): State
    requires Enabled(c, s, a)
  {
    match a
    case MainStep => MainNext(c, s)
    case Get(i) => s.(input := s.input[1..], workers := s.workers[i := Got(s.input[0])])
    case Decide(i) => s.(workers := s.workers[i := Decision(s.workers[i].job, s.threadExit)])
    case Finish(i, rc) => s.(workers := s.workers[i := Putting(s.workers[i].job.(returncode := rc))])
    case Put(i) => s.(output := s.output + [s.workers[i].job], workers := s.workers[i := Waiting])
    case Interrupt => s.(threadExit := true)
  }

  /** States and the actions between them, from the initial state on. */
  ghost predicate IsRun(c: Config, states: seq<State>, actions: seq<Action>) {
    && |states| == |actions| + 1 && states[0] == Init(c)
    && forall i :: 0 <= i < |actions| ==> Enabled(c, states[i], actions[i]) && states[i + 1] == Next(c, states[i], actions[i])
  }

  ghost predicate Reachable(c: Config, s: State) {
    exists states, actions :: IsRun(c, states, actions) && states[|states| - 1] == s
  }

  // ---- where the jobs are ----

  /** Which jobs a count is about. */
  datatype Which = Any | Only(id: nat)

  predicate About(which: Which, j: Job) {
    which == Any || j.id == which.id
  }

  function One(b: bool): nat {
    if b then 1 else 0
  }

  /** How many of those jobs are in the queue; break items count only if `breaks` is set. */
  function Queued(q: seq<Job>, breaks: bool, which: Which): nat {
    if q == [] then 0
    else
      var j := q[|q| - 1];
      Queued(q[..|q| - 1], breaks, which) + One((breaks || !j.isBreak) && About(which, j))
  }

  /** The worker has one of those jobs in its hands. */
  predicate Holds(w: Worker, which: Which) {
    match w
    case Got(j) => !j.isBreak && About(which, j)
    case Running(j) => About(which, j)
    case Putting(j) => About(which, j)
    case _ => false
  }

  function Held(ws: seq<Worker>, which: Which): nat {
    if ws == [] then 0 else Held(ws[..|ws| - 1], which) + One(Holds(ws[|ws| - 1], which))
  }

  /** The places a job can be: queued, in a worker's hands, on the output queue, or collected. */
  function Places(s: State, which: Which): nat {
    Queued(s.input, false, which) + Held(s.workers, which) + Queued(s.output, true, which) + Queued(s.collected, true, which)
  }

  function Expected(d: nat, which: Which): nat {
    if which == Any then d else One(which.id < d)
  }

  /** Each dispatched job is in exactly one place, and no other is anywhere. */
  ghost predicate Conserved(c: Config, s: State) {
    forall which :: Places(s, which) == Expected(Dispatched(c, s), which)
  }

  function Dispatched(c: Config, s: State): nat {
    if s.main.Dispatching? then s.main.k else |c.jobs|
  }

  function Sent(c: Config, s: State): nat {
    match s.main
    case Dispatching(_) => 0
    case Sending(k) => k
    case _ => c.n
  }

  /** A worker that has taken its sentinel. */
  predicate TookSentinel(w: Worker) {
    w.Returned? || (w.Got? && w.job.isBreak)
  }

  function Takers(ws: seq<Worker>): nat {
    if ws == [] then 0 else Takers(ws[..|ws| - 1]) + One(TookSentinel(ws[|ws| - 1]))
  }

  function Breaks(q: seq<Job>): nat {
    if q == [] then 0 else Breaks(q[..|q| - 1]) + One(q[|q| - 1].isBreak)
  }

  /** The job as it was dispatched. */
  predicate Untouched(c: Config, job: Job) {
    job.id < |c.jobs| && job == c.jobs[job.id]
  }

  /** The same test the dispatcher queued under that id; if skipped or interrupted, it was never run. */
  predicate Genuine(c: Config, job: Job) {
    job.id < |c.jobs| && var d := c.jobs[job.id];
    && job.name == d.name && job.skipReason == d.skipReason && job.isSkip == d.isSkip
    && (job.isSkip || job.isBreak ==> job.returncode == d.returncode)
  }

  predicate WorkerOk(c: Config, w: Worker) {
    match w
    case Got(j) => j.isBreak || Untouched(c, j)
    case Running(j) => Untouched(c, j) && !j.isBreak && !j.isSkip
    case Putting(j) => Genuine(c, j)
    case _ => true
  }

  // ---- the invariant ----

  predicate OnlyBreaks(q: seq<Job>) {
    forall j :: j in q ==> j.isBreak
  }

  /** FIFO order: behind a sentinel there are only sentinels. */
  predicate SentinelsLast(q: seq<Job>) {
    forall i, j :: 0 <= i < j < |q| && q[i].isBreak ==> q[j].isBreak
  }

  /** Where the sentinels are. */
  ghost predicate SentinelInv(c: Config, s: State) {
    && SentinelsLast(s.input)
    && (Takers(s.workers) > 0 ==> OnlyBreaks(s.input))
    && Breaks(s.input) + Takers(s.workers) == Sent(c, s)
    && (s.main.Sending? ==> s.main.k <= c.n)
  }

  ghost predicate PhaseInv(c: Config, s: State) {
    match s.main
    case Dispatching(k) => k <= |c.jobs| && s.collected == []
    case Sending(_) => s.collected == []
    case Collecting => true
    case Joining(k) => |s.collected| == |c.jobs| && k <= |s.workers| && forall i :: 0 <= i < k ==> s.workers[i].Returned?
    case Done => |s.collected| == |c.jobs| && forall i :: 0 <= i < |s.workers| ==> s.workers[i].Returned?
  }

  ghost predicate TestsInv(c: Config, s: State) {
    && (forall j :: j in s.input ==> j.isBreak || Untouched(c, j))
    && (forall j :: j in s.output ==> Genuine(c, j))
    && (forall j :: j in s.collected ==> Genuine(c, j))
    && (forall i :: 0 <= i < |s.workers| ==> WorkerOk(c, s.workers[i]))
  }

  ghost predicate Inv(c: Config, s: State) {
    && |s.workers| == c.n
    && PhaseInv(c, s)
    && TestsInv(c, s)
    && SentinelInv(c, s)
    && Conserved(c, s)
  }

  // ---- counting lemmas ----

  lemma {:induction false} QueuedConcat(a: seq<Job>, b: seq<Job>, breaks: bool, which: Which)
    ensures Queued(a + b, breaks, which) == Queued(a, breaks, which) + Queued(b, breaks, which)
  {
    if b == [] {
      assert a + b == a;
    } else {
      var n := |b| - 1;
      QueuedConcat(a, b[..n], breaks, which);
      assert (a + b)[..|a + b| - 1] == a + b[..n];
    }
  }

  lemma {:induction false} BreaksConcat(a: seq<Job>, b: seq<Job>)
    ensures Breaks(a + b) == Breaks(a) + Breaks(b)
  {
    if b == [] {
      assert a + b == a;
    } else {
      var n := |b| - 1;
      BreaksConcat(a, b[..n]);
      assert (a + b)[..|a + b| - 1] == a + b[..n];
    }
  }

  lemma {:induction false} QueuedAny(q: seq<Job>)
    ensures Queued(q, true, Any) == |q|
    ensures OnlyBreaks(q) ==> forall which :: Queued(q, false, which) == 0
  {
    if q != [] {
      QueuedAny(q[..|q| - 1]);
      assert q[|q| - 1] in q;
    }
  }

  lemma {:induction false} HeldUpdate(ws: seq<Worker>, i: nat, w: Worker, which: Which)
    requires i < |ws|
    ensures Held(ws[i := w], which) + One(Holds(ws[i], which)) == Held(ws, which) + One(Holds(w, which))
  {
    var n := |ws| - 1;
    if i < n {
      HeldUpdate(ws[..n], i, w, which);
      assert ws[i := w][..n] == ws[..n][i := w];
    } else {
      assert ws[i := w][..n] == ws[..n];
    }
  }

  lemma {:induction false} TakersUpdate(ws: seq<Worker>, i: nat, w: Worker)
    requires i < |ws|
    ensures Takers(ws[i := w]) + One(TookSentinel(ws[i])) == Takers(ws) + One(TookSentinel(w))
  {
    var n := |ws| - 1;
    if i < n {
      TakersUpdate(ws[..n], i, w);
      assert ws[i := w][..n] == ws[..n][i := w];
    } else {
      assert ws[i := w][..n] == ws[..n];
    }
  }

  lemma {:induction false} TakersBounds(ws: seq<Worker>)
    ensures Takers(ws) <= |ws|
    ensures (exists i :: 0 <= i < |ws| && !TookSentinel(ws[i])) ==> Takers(ws) < |ws|
    ensures (exists i :: 0 <= i < |ws| && TookSentinel(ws[i])) ==> Takers(ws) > 0
  {
    if ws != [] {
      TakersBounds(ws[..|ws| - 1]);
    }
  }

  lemma {:induction false} HeldMember(ws: seq<Worker>, which: Which)
    ensures Held(ws, which) > 0 <==> exists i :: 0 <= i < |ws| && Holds(ws[i], which)
  {
    if ws != [] {
      var n := |ws| - 1;
      HeldMember(ws[..n], which);
      if i :| 0 <= i < n && Holds(ws[..n][i], which) {
        assert Holds(ws[i], which);
      }
      if i :| 0 <= i < |ws| && Holds(ws[i], which) {
        assert i < n ==> Holds(ws[..n][i], which);
      }
    }
  }

  // ---- every step keeps the invariant ----

  lemma {:induction false} FreshWorkers(n: nat, which: Which)
    ensures Held(seq(n, _ => Waiting), which) == 0 && Takers(seq(n, _ => Waiting)) == 0
  {
    if n > 0 {
      FreshWorkers(n - 1, which);
      assert seq(n, _ => Waiting)[..n - 1] == seq(n - 1, _ => Waiting);
    }
  }

  lemma InitInv(c: Config)
    ensures Inv(c, Init(c))
  {
    FreshWorkers(c.n, Any);
    forall which ensures Places(Init(c), which) == 0 {
      FreshWorkers(c.n, which);
    }
  }

  lemma PushKeepsOrder(q: seq<Job>, j: Job)
    requires SentinelsLast(q) && (j.isBreak || Breaks(q) == 0)
    ensures SentinelsLast(q + [j])
    ensures OnlyBreaks(q) && j.isBreak ==> OnlyBreaks(q + [j])
  {
  }

  lemma PopKeepsOrder(q: seq<Job>)
    requires q != [] && SentinelsLast(q)
    ensures SentinelsLast(q[1..])
    ensures q[0].isBreak ==> OnlyBreaks(q)
    ensures OnlyBreaks(q) ==> OnlyBreaks(q[1..])
  {
    forall j | j in q && q[0].isBreak ensures j.isBreak {
      var k :| 0 <= k < |q| && q[k] == j;
    }
    assert q == [q[0]] + q[1..];
  }

  lemma PushCounts(q: seq<Job>, j: Job, breaks: bool, which: Which)
    ensures Queued(q + [j], breaks, which) == Queued(q, breaks, which) + One((breaks || !j.isBreak) && About(which, j))
    ensures Breaks(q + [j]) == Breaks(q) + One(j.isBreak)
  {
    assert (q + [j])[..|q|] == q;
  }

  lemma PopCounts(q: seq<Job>, breaks: bool, which: Which)
    requires q != []
    ensures Queued(q, breaks, which) == Queued(q[1..], breaks, which) + One((breaks || !q[0].isBreak) && About(which, q[0]))
    ensures Breaks(q) == Breaks(q[1..]) + One(q[0].isBreak)
  {
    assert q == [q[0]] + q[1..] && [] + [q[0]] == [q[0]];
    QueuedConcat([q[0]], q[1..], breaks, which);
    BreaksConcat([q[0]], q[1..]);
    PushCounts([], q[0], breaks, which);
  }

  lemma TestsStep(c: Config, s: State, a: Action)
    requires ValidConfig(c) && TestsInv(c, s) && Enabled(c, s, a)
    ensures TestsInv(c, Next(c, s, a))
  {
    var s' := Next(c, s, a);
    if a.MainStep? && s.main.Collecting? && |s.collected| < |c.jobs| {
      assert s.output[0] in s.output;
    }
    if a.Get? {
      assert s.input[0] in s.input;
    }
    forall i | 0 <= i < |s'.workers| ensures WorkerOk(c, s'.workers[i]) {
      assert WorkerOk(c, s.workers[i]);
    }
  }

  lemma CollectCounts(output: seq<Job>, collected: seq<Job>, which: Which)
    requires output != []
    ensures Queued(output[1..], true, which) + Queued(collected + [output[0]], true, which) ==
            Queued(output, true, which) + Queued(collected, true, which)
  {
    hide Queued, About;
    PopCounts(output, true, which);
    PushCounts(collected, output[0], true, which);
  }

  /** A job changes place but is never lost or duplicated; the one place jobs appear is dispatch. */
  lemma PlacesMain(c: Config, s: State, which: Which)
    requires ValidConfig(c) && Enabled(c, s, MainStep) && (s.main.Dispatching? ==> s.main.k <= |c.jobs|)
    requires Places(s, which) == Expected(Dispatched(c, s), which)
    ensures Places(MainNext(c, s), which) == Expected(Dispatched(c, MainNext(c, s)), which)
  {
    hide Queued, Held;
    match s.main
    case Dispatching(k) =>
      if k < |c.jobs| {
        PushCounts(s.input, c.jobs[k], false, which);
      }
    case Sending(k) => PushCounts(s.input, BREAK_JOB, false, which);
    case Collecting =>
      if |s.collected| < |c.jobs| {
        CollectCounts(s.output, s.collected, which);
      }
    case _ =>
  }

  /** A change of hands that holds the same job as before. */
  lemma PlacesHand(s: State, i: nat, w: Worker, which: Which)
    requires i < |s.workers| && Holds(w, which) == Holds(s.workers[i], which)
    ensures Places(s.(workers := s.workers[i := w]), which) == Places(s, which)
  {
    hide Queued, Held, Holds;
    HeldUpdate(s.workers, i, w, which);
  }

  lemma PlacesGet(s: State, i: nat, which: Which)
    requires i < |s.workers| && s.workers[i].Waiting? && s.input != []
    ensures Places(s.(input := s.input[1..], workers := s.workers[i := Got(s.input[0])]), which) == Places(s, which)
  {
    hide Queued, Held, About;
    PopCounts(s.input, false, which);
    HeldUpdate(s.workers, i, Got(s.input[0]), which);
  }

  lemma PutCounts(ws: seq<Worker>, i: nat, q: seq<Job>, j: Job, which: Which)
    requires i < |ws| && ws[i] == Putting(j)
    ensures Queued(q + [j], true, which) + Held(ws[i := Waiting], which) == Queued(q, true, which) + Held(ws, which)
  {
    hide Queued, Held, About;
    PushCounts(q, j, true, which);
    HeldUpdate(ws, i, Waiting, which);
  }

  lemma PlacesWorker(c: Config, s: State, a: Action, which: Which)
    requires Enabled(c, s, a) && !a.MainStep?
    ensures Places(Next(c, s, a), which) == Places(s, which)
  {
    hide Queued, Held;
    match a
    case Get(i) => PlacesGet(s, i, which);
    case Put(i) => PutCounts(s.workers, i, s.output, s.workers[i].job, which);
    case Decide(i) =>
      PlacesHand(s, i, Decision(s.workers[i].job, s.threadExit), which);
    case Finish(i, rc) => PlacesHand(s, i, Putting(s.workers[i].job.(returncode := rc)), which);
    case Interrupt =>
  }

  lemma SentinelMain(c: Config, s: State)
    requires ValidConfig(c) && SentinelInv(c, s) && Enabled(c, s, MainStep)
    ensures SentinelInv(c, MainNext(c, s))
  {
    hide Breaks, Takers, SentinelsLast, OnlyBreaks;
    match s.main
    case Dispatching(k) =>
      if k < |c.jobs| {
        PushCounts(s.input, c.jobs[k], false, Any);
        PushKeepsOrder(s.input, c.jobs[k]);
      }
    case Sending(k) =>
      PushCounts(s.input, BREAK_JOB, false, Any);
      PushKeepsOrder(s.input, BREAK_JOB);
    case _ =>
  }

  lemma SentinelWorker(c: Config, s: State, a: Action)
    requires SentinelInv(c, s) && Enabled(c, s, a) && !a.MainStep?
    ensures SentinelInv(c, Next(c, s, a))
  {
    hide Breaks, Takers, SentinelsLast, OnlyBreaks;
    match a
    case Get(i) =>
      PopCounts(s.input, false, Any);
      TakersUpdate(s.workers, i, Got(s.input[0]));
      PopKeepsOrder(s.input);
    case Interrupt =>
    case Decide(i) => TakersUpdate(s.workers, i, Decision(s.workers[i].job, s.threadExit));
    case Finish(i, rc) => TakersUpdate(s.workers, i, Putting(s.workers[i].job.(returncode := rc)));
    case Put(i) => TakersUpdate(s.workers, i, Waiting);
  }

  lemma PhaseStep(c: Config, s: State, a: Action)
    requires PhaseInv(c, s) && |s.workers| == c.n && Enabled(c, s, a) && |s.collected| <= |c.jobs|
    ensures PhaseInv(c, Next(c, s, a)) && |Next(c, s, a).workers| == c.n
  {
  }

  /** No more can be collected than was dispatched. */
  lemma CollectedBound(c: Config, s: State)
    requires Conserved(c, s)
    ensures |s.collected| <= Dispatched(c, s)
  {
    QueuedAny(s.collected);
    assert Places(s, Any) == Expected(Dispatched(c, s), Any);
  }

  lemma StepInv(c: Config, s: State, a: Action)
    requires ValidConfig(c) && Inv(c, s) && Enabled(c, s, a)
    ensures Inv(c, Next(c, s, a))
  {
    hide TestsInv, SentinelInv, Places, Enabled, ValidConfig, MainNext;
    CollectedBound(c, s);
    PhaseStep(c, s, a);
    TestsStep(c, s, a);
    if a.MainStep? {
      SentinelMain(c, s);
    } else {
      SentinelWorker(c, s, a);
    }
    forall which ensures Places(Next(c, s, a), which) == Expected(Dispatched(c, Next(c, s, a)), which) {
      if a.MainStep? {
        PlacesMain(c, s, which);
      } else {
        PlacesWorker(c, s, a, which);
      }
    }
  }

  lemma {:induction false} RunInv(c: Config, states: seq<State>, actions: seq<Action>, i: nat)
    requires ValidConfig(c) && IsRun(c, states, actions) && i < |states|
    ensures Inv(c, states[i])
  {
    hide Inv;
    if i == 0 {
      InitInv(c);
    } else {
      RunInv(c, states, actions, i - 1);
      assert states[i - 1 + 1] == Next(c, states[i - 1], actions[i - 1]);
      StepInv(c, states[i - 1], actions[i - 1]);
    }
  }

  lemma ReachableInv(c: Config, s: State)
    requires ValidConfig(c) && Reachable(c, s)
    ensures Inv(c, s)
  {
    hide Inv;
    var states, actions :| IsRun(c, states, actions) && states[|states| - 1] == s;
    RunInv(c, states, actions, |states| - 1);
  }

  // ---- safety ----

  /** Under every interleaving each dispatched job is in exactly one place. */
  lemma ExactlyOnePlace(c: Config, s: State, k: nat)
    requires ValidConfig(c) && Reachable(c, s)
    ensures Places(s, Only(k)) == if k < Dispatched(c, s) then 1 else 0
  {
    ReachableInv(c, s);
  }

  /** A worker takes a sentinel only when no real job is queued, or ever will be. */
  lemma SentinelsTakenLast(c: Config, s: State, i: nat)
    requires ValidConfig(c) && Reachable(c, s) && Enabled(c, s, Get(i)) && s.input[0].isBreak
    ensures OnlyBreaks(s.input) && !s.main.Dispatching?
  {
    ReachableInv(c, s);
    PopKeepsOrder(s.input);
    assert s.input[0] in s.input;
  }

  /** How often worker i takes a sentinel in the first m steps of a run. */
  ghost function SentinelGets(states: seq<State>, actions: seq<Action>, i: nat, m: nat): nat
    requires m <= |actions| < |states|
  {
    if m == 0 then 0
    else SentinelGets(states, actions, i, m - 1) +
         One(actions[m - 1] == Get(i) && states[m - 1].input != [] && states[m - 1].input[0].isBreak)
  }

  lemma TookStep(c: Config, s: State, a: Action, i: nat)
    requires Enabled(c, s, a) && i < |s.workers|
    ensures |Next(c, s, a).workers| == |s.workers|
    ensures One(TookSentinel(Next(c, s, a).workers[i])) ==
      One(TookSentinel(s.workers[i])) + One(a == Get(i) && s.input != [] && s.input[0].isBreak)
  {
  }

  lemma {:induction false} SentinelGetsCount(c: Config, states: seq<State>, actions: seq<Action>, i: nat, m: nat)
    requires ValidConfig(c) && IsRun(c, states, actions) && i < c.n && m <= |actions|
    ensures |states[m].workers| == c.n
    ensures SentinelGets(states, actions, i, m) == One(TookSentinel(states[m].workers[i]))
  {
    hide Enabled, Next, PhaseInv, TestsInv, SentinelInv, Conserved;
    RunInv(c, states, actions, m);
    if m > 0 {
      SentinelGetsCount(c, states, actions, i, m - 1);
      RunInv(c, states, actions, m - 1);
      assert states[m - 1 + 1] == Next(c, states[m - 1], actions[m - 1]);
      TookStep(c, states[m - 1], actions[m - 1], i);
    }
  }

  /** In a finished run every worker has taken exactly one sentinel. */
  lemma OneSentinelEach(c: Config, states: seq<State>, actions: seq<Action>, i: nat)
    requires ValidConfig(c) && IsRun(c, states, actions) && states[|actions|].main.Done? && i < c.n
    ensures SentinelGets(states, actions, i, |actions|) == 1
  {
    RunInv(c, states, actions, |actions|);
    SentinelGetsCount(c, states, actions, i, |actions|);
  }

  /** From the first join on, every result is in and only sentinels are queued, one for each worker yet to take its own. */
  lemma JoinPhase(c: Config, s: State)
    requires ValidConfig(c) && Reachable(c, s) && (s.main.Joining? || s.main.Done?)
    ensures |s.collected| == |c.jobs| && s.output == [] && OnlyBreaks(s.input)
    ensures |s.input| == c.n - Takers(s.workers)
    ensures forall i :: 0 <= i < |s.workers| ==> s.workers[i].Waiting? || TookSentinel(s.workers[i])
    ensures s.main.Done? ==> s.input == [] && forall i :: 0 <= i < |s.workers| ==> s.workers[i].Returned?
  {
    ReachableInv(c, s);
    assert Places(s, Any) == |c.jobs|;
    QueuedAny(s.collected);
    QueuedAny(s.output);
    QueuedZero(s.input);
    HeldMember(s.workers, Any);
    forall i | 0 <= i < |s.workers| ensures s.workers[i].Waiting? || TookSentinel(s.workers[i]) {
      assert !Holds(s.workers[i], Any);
    }
    AllBreaks(s.input);
    if s.main.Done? {
      AllTook(s.workers);
    }
  }

  lemma {:induction false} QueuedZero(q: seq<Job>)
    ensures Queued(q, false, Any) == 0 ==> OnlyBreaks(q)
  {
    if q != [] {
      QueuedZero(q[..|q| - 1]);
      assert q == q[..|q| - 1] + [q[|q| - 1]];
    }
  }

  lemma {:induction false} AllBreaks(q: seq<Job>)
    ensures OnlyBreaks(q) ==> Breaks(q) == |q|
  {
    if q != [] {
      AllBreaks(q[..|q| - 1]);
      assert q[|q| - 1] in q;
    }
  }

  lemma {:induction false} AllTook(ws: seq<Worker>)
    ensures (forall i :: 0 <= i < |ws| ==> TookSentinel(ws[i])) ==> Takers(ws) == |ws|
  {
    if ws != [] {
      AllTook(ws[..|ws| - 1]);
    }
  }

  // ---- the interrupt ----

  /** A worker has decided to run or report one of those jobs, without marking it as a break. */
  predicate HoldsUnmarked(w: Worker, which: Which) {
    (w.Running? || w.Putting?) && !w.job.isBreak && About(which, w.job)
  }

  function HeldUnmarked(ws: seq<Worker>, which: Which): nat {
    if ws == [] then 0 else HeldUnmarked(ws[..|ws| - 1], which) + One(HoldsUnmarked(ws[|ws| - 1], which))
  }

  /** The jobs decided on, wherever they are now, that are not marked as interrupted. */
  function Unmarked(s: State, which: Which): nat {
    HeldUnmarked(s.workers, which) + Queued(s.output, false, which) + Queued(s.collected, false, which)
  }

  lemma {:induction false} UnmarkedUpdate(ws: seq<Worker>, i: nat, w: Worker, which: Which)
    requires i < |ws|
    ensures HeldUnmarked(ws[i := w], which) + One(HoldsUnmarked(ws[i], which)) == HeldUnmarked(ws, which) + One(HoldsUnmarked(w, which))
  {
    var n := |ws| - 1;
    if i < n {
      UnmarkedUpdate(ws[..n], i, w, which);
      assert ws[i := w][..n] == ws[..n][i := w];
    } else {
      assert ws[i := w][..n] == ws[..n];
    }
  }

  lemma UnmarkedMain(c: Config, s: State, which: Which)
    requires Enabled(c, s, MainStep)
    ensures Unmarked(MainNext(c, s), which) == Unmarked(s, which)
  {
    hide Queued, HeldUnmarked, About;
    if s.main.Collecting? && |s.collected| < |c.jobs| {
      PopCounts(s.output, false, which);
      PushCounts(s.collected, s.output[0], false, which);
    }
  }

  lemma UnmarkedPut(ws: seq<Worker>, i: nat, q: seq<Job>, j: Job, which: Which)
    requires i < |ws| && ws[i] == Putting(j)
    ensures Queued(q + [j], false, which) + HeldUnmarked(ws[i := Waiting], which) == Queued(q, false, which) + HeldUnmarked(ws, which)
  {
    hide Queued, HeldUnmarked, About;
    PushCounts(q, j, false, which);
    UnmarkedUpdate(ws, i, Waiting, which);
  }

  lemma UnmarkedDecide(j: Job, threadExit: bool, which: Which)
    ensures !HoldsUnmarked(Got(j), which)
    ensures threadExit ==> !HoldsUnmarked(Decision(j, threadExit), which)
  {
  }

  /** A decision is never taken back; and once the interrupt is in, none is taken in favour of a job. */
  lemma UnmarkedStep(c: Config, s: State, a: Action, which: Which)
    requires Inv(c, s) && Enabled(c, s, a)
    ensures Unmarked(s, which) <= Unmarked(Next(c, s, a), which)
    ensures s.threadExit ==> Next(c, s, a).threadExit && Unmarked(Next(c, s, a), which) == Unmarked(s, which)
  {
    hide Queued, HeldUnmarked, Inv, Decision, MainNext;
    match a
    case MainStep =>
      UnmarkedMain(c, s, which);
      MainKeepsFlag(c, s);
    case Get(i) => UnmarkedUpdate(s.workers, i, Got(s.input[0]), which);
    case Decide(i) =>
      UnmarkedUpdate(s.workers, i, Decision(s.workers[i].job, s.threadExit), which);
      UnmarkedDecide(s.workers[i].job, s.threadExit, which);
    case Finish(i, rc) => UnmarkedUpdate(s.workers, i, Putting(s.workers[i].job.(returncode := rc)), which);
    case Put(i) => UnmarkedPut(s.workers, i, s.output, s.workers[i].job, which);
    case Interrupt =>
  }

  lemma MainKeepsFlag(c: Config, s: State)
    requires Enabled(c, s, MainStep)
    ensures MainNext(c, s).threadExit == s.threadExit
  {
  }

  lemma {:induction false} UnmarkedRun(c: Config, states: seq<State>, actions: seq<Action>, m: nat, n: nat, which: Which)
    requires ValidConfig(c) && IsRun(c, states, actions) && m <= n <= |actions|
    ensures Unmarked(states[m], which) <= Unmarked(states[n], which)
    ensures states[m].threadExit ==> states[n].threadExit && Unmarked(states[n], which) == Unmarked(states[m], which)
    decreases n - m
  {
    hide Unmarked, Enabled, Next, Inv;
    if m < n {
      UnmarkedRun(c, states, actions, m, n - 1, which);
      RunInv(c, states, actions, n - 1);
      assert states[n - 1 + 1] == Next(c, states[n - 1], actions[n - 1]);
      UnmarkedStep(c, states[n - 1], actions[n - 1], which);
    }
  }

  /** The interrupt decides every job's fate: from then on, those already run, running or skipped come back unmarked
      and all others come back as breaks. */
  lemma InterruptFreezesResults(c: Config, states: seq<State>, actions: seq<Action>, m: nat, which: Which)
    requires ValidConfig(c) && IsRun(c, states, actions) && m <= |actions|
    requires states[m].threadExit && states[|actions|].main.Done?
    ensures Queued(states[|actions|].collected, false, which) == Unmarked(states[m], which)
  {
    hide Queued, Enabled, Next, Inv;
    var s := states[|actions|];
    UnmarkedRun(c, states, actions, m, |actions|, which);
    assert states[|states| - 1] == s;
    JoinPhase(c, s);
    NoneHeld(s.workers, which);
    NoneQueued(which);
  }

  lemma NoneQueued(which: Which)
    ensures Queued([], false, which) == 0
  {
  }

  lemma {:induction false} NoneHeld(ws: seq<Worker>, which: Which)
    requires forall i :: 0 <= i < |ws| ==> ws[i].Returned?
    ensures HeldUnmarked(ws, which) == 0
  {
    if ws != [] {
      NoneHeld(ws[..|ws| - 1], which);
    }
  }

  // ---- progress ----

  /** Some thread can take a step. */
  ghost predicate CanStep(c: Config, s: State) {
    exists a :: a != Interrupt && Enabled(c, s, a)
  }

  lemma BusyWorkerSteps(c: Config, s: State, i: nat)
    requires i < |s.workers| && !s.workers[i].Returned? && (s.workers[i].Waiting? ==> s.input != [])
    ensures CanStep(c, s)
  {
    var a := match s.workers[i]
      case Waiting => Get(i)
      case Got(_) => Decide(i)
      case Running(_) => Finish(i, 0)
      case _ => Put(i);
    assert Enabled(c, s, a);
  }

  lemma CollectorIsFed(c: Config, s: State)
    requires Inv(c, s) && s.main.Collecting? && |s.collected| < |c.jobs| && s.output == [] && c.n >= 1
    ensures CanStep(c, s)
  {
    hide CanStep, Enabled;
    QueuedAny(s.collected);
    assert Places(s, Any) == Expected(Dispatched(c, s), Any);
    if Held(s.workers, Any) > 0 {
      HeldMember(s.workers, Any);
      var i :| 0 <= i < |s.workers| && Holds(s.workers[i], Any);
      BusyWorkerSteps(c, s, i);
    } else {
      QueuedAny(s.input);
      TakersBounds(s.workers);
      assert !TookSentinel(s.workers[0]);
      BusyWorkerSteps(c, s, 0);
    }
  }

  lemma JoinIsFed(c: Config, s: State)
    requires Inv(c, s) && s.main.Joining? && s.main.k < |s.workers| && !s.workers[s.main.k].Returned?
    ensures CanStep(c, s)
  {
    hide CanStep, Enabled;
    var w := s.workers[s.main.k];
    if w.Waiting? {
      TakersBounds(s.workers);
      assert !TookSentinel(w);
      assert Breaks(s.input) > 0;
    }
    BusyWorkerSteps(c, s, s.main.k);
  }

  /** With a worker, or with nothing to do, the runner is never stuck. */
  lemma NeverStuck(c: Config, s: State)
    requires ValidConfig(c) && Reachable(c, s) && !s.main.Done?
    requires c.n >= 1 || c.jobs == []
    ensures CanStep(c, s)
  {
    ReachableInv(c, s);
    if Enabled(c, s, MainStep) {
    } else if s.main.Collecting? {
      CollectorIsFed(c, s);
    } else {
      JoinIsFed(c, s);
    }
  }

  lemma {:induction false} DispatchRun(c: Config, k: nat) returns (states: seq<State>, actions: seq<Action>)
    requires k <= |c.jobs|
    ensures IsRun(c, states, actions)
    ensures states[|actions|] == State(Dispatching(k), c.jobs[..k], Init(c).workers, [], [], false)
  {
    if k == 0 {
      states, actions := [Init(c)], [];
    } else {
      var states0, actions0 := DispatchRun(c, k - 1);
      var s := states0[|actions0|];
      assert c.jobs[..k] == c.jobs[..k - 1] + [c.jobs[k - 1]];
      states, actions := ExtendRun(c, states0, actions0, MainStep);
    }
  }

  lemma ExtendRun(c: Config, states: seq<State>, actions: seq<Action>, a: Action) returns (states': seq<State>, actions': seq<Action>)
    requires IsRun(c, states, actions) && Enabled(c, states[|actions|], a)
    ensures IsRun(c, states', actions') && |actions'| == |actions| + 1
    ensures states'[|actions'|] == Next(c, states[|actions|], a)
  {
    states', actions' := states + [Next(c, states[|actions|], a)], actions + [a];
  }

  /** Without workers (test.py accepts a negative --jobs) and with something to run, main waits forever. */
  lemma StuckWithoutWorkers(c: Config) returns (s: State)
    requires c.n == 0 && c.jobs != []
    ensures Reachable(c, s) && !s.main.Done? && !CanStep(c, s)
  {
    var states, actions := DispatchRun(c, |c.jobs|);
    states, actions := ExtendRun(c, states, actions, MainStep);
    states, actions := ExtendRun(c, states, actions, MainStep);
    s := states[|actions|];
    assert IsRun(c, states, actions) && states[|states| - 1] == s;
  }

  /** The runner can always go on to the end exactly when it has a worker or nothing to do. */
  lemma ProgressIffWorkers(c: Config)
    requires ValidConfig(c)
    ensures (forall s :: Reachable(c, s) && !s.main.Done? ==> CanStep(c, s)) <==> c.n >= 1 || c.jobs == []
  {
    hide Reachable, CanStep;
    if c.n >= 1 || c.jobs == [] {
      forall s | Reachable(c, s) && !s.main.Done? ensures CanStep(c, s) {
        NeverStuck(c, s);
      }
    } else {
      var s := StuckWithoutWorkers(c);
    }
  }

  // ---- ranking ----

  function JobWeight(j: Job): nat {
    if j.isBreak then 2 else 5
  }

  function InputWeight(q: seq<Job>): nat {
    if q == [] then 0 else InputWeight(q[..|q| - 1]) + JobWeight(q[|q| - 1])
  }

  function WorkerWeight(w: Worker): nat {
    match w
    case Got(j) => if j.isBreak then 1 else 4
    case Running(_) => 3
    case Putting(_) => 2
    case _ => 0
  }

  function WorkersWeight(ws: seq<Worker>): nat {
    if ws == [] then 0 else WorkersWeight(ws[..|ws| - 1]) + WorkerWeight(ws[|ws| - 1])
  }

  function MainWeight(c: Config, main: Main): int {
    match main
    case Dispatching(k) => 6 * (|c.jobs| - k) + 3 * c.n + c.n + 4
    case Sending(k) => 3 * (c.n - k) + c.n + 3
    case Collecting => c.n + 2
    case Joining(k) => c.n - k + 1
    case Done => 0
  }

  /** An upper bound on the steps still to come. */
  function Rank(c: Config, s: State): int {
    MainWeight(c, s.main) + InputWeight(s.input) + WorkersWeight(s.workers) + |s.output| + One(!s.threadExit)
  }

  lemma {:induction false} InputWeightConcat(a: seq<Job>, b: seq<Job>)
    ensures InputWeight(a + b) == InputWeight(a) + InputWeight(b)
  {
    if b == [] {
      assert a + b == a;
    } else {
      var n := |b| - 1;
      InputWeightConcat(a, b[..n]);
      assert (a + b)[..|a + b| - 1] == a + b[..n];
    }
  }

  lemma {:induction false} WorkersWeightUpdate(ws: seq<Worker>, i: nat, w: Worker)
    requires i < |ws|
    ensures WorkersWeight(ws[i := w]) + WorkerWeight(ws[i]) == WorkersWeight(ws) + WorkerWeight(w)
  {
    var n := |ws| - 1;
    if i < n {
      WorkersWeightUpdate(ws[..n], i, w);
      assert ws[i := w][..n] == ws[..n][i := w];
    } else {
      assert ws[i := w][..n] == ws[..n];
    }
  }

  lemma InputWeightOne(j: Job)
    ensures InputWeight([j]) == JobWeight(j)
  {
    assert [j][..0] == [];
  }

  lemma MainLowersRank(c: Config, s: State)
    requires ValidConfig(c) && PhaseInv(c, s) && SentinelInv(c, s) && |s.workers| == c.n && Enabled(c, s, MainStep)
    ensures Rank(c, MainNext(c, s)) < Rank(c, s)
  {
    hide InputWeight, WorkersWeight, SentinelsLast, OnlyBreaks, Breaks, Takers;
    if s.main.Dispatching? && s.main.k < |c.jobs| {
      InputWeightConcat(s.input, [c.jobs[s.main.k]]);
      InputWeightOne(c.jobs[s.main.k]);
    } else if s.main.Sending? {
      InputWeightConcat(s.input, [BREAK_JOB]);
      InputWeightOne(BREAK_JOB);
    }
  }

  lemma WorkerLowersRank(c: Config, s: State, a: Action)
    requires Enabled(c, s, a) && a != MainStep && a != Interrupt
    ensures Rank(c, Next(c, s, a)) < Rank(c, s)
  {
    hide InputWeight, WorkersWeight, MainWeight;
    match a
    case Get(i) =>
      assert s.input == [s.input[0]] + s.input[1..];
      InputWeightConcat([s.input[0]], s.input[1..]);
      InputWeightOne(s.input[0]);
      WorkersWeightUpdate(s.workers, i, Got(s.input[0]));
    case Decide(i) => WorkersWeightUpdate(s.workers, i, Decision(s.workers[i].job, s.threadExit));
    case Finish(i, rc) => WorkersWeightUpdate(s.workers, i, Putting(s.workers[i].job.(returncode := rc)));
    case Put(i) => WorkersWeightUpdate(s.workers, i, Waiting);
  }

  /** Every step lowers the rank, except an interrupt after the first, which changes nothing. */
  lemma StepLowersRank(c: Config, s: State, a: Action)
    requires ValidConfig(c) && Inv(c, s) && Enabled(c, s, a)
    ensures 0 <= Rank(c, Next(c, s, a))
    ensures if a == Interrupt && s.threadExit then Next(c, s, a) == s else Rank(c, Next(c, s, a)) < Rank(c, s)
  {
    hide InputWeight, WorkersWeight, PhaseInv, SentinelInv, TestsInv, Conserved, MainWeight, Enabled, MainNext;
    StepInv(c, s, a);
    RankBounds(c, Next(c, s, a));
    if a.MainStep? {
      MainLowersRank(c, s);
    } else if a != Interrupt {
      WorkerLowersRank(c, s, a);
    }
  }

  /** No step of the run is an interrupt after the first one. */
  ghost predicate NoIdleInterrupts(states: seq<State>, actions: seq<Action>)
    requires |states| == |actions| + 1
  {
    forall i :: 0 <= i < |actions| ==> actions[i] == Interrupt ==> !states[i].threadExit
  }

  lemma {:induction false} RunIsBounded(c: Config, states: seq<State>, actions: seq<Action>, m: nat)
    requires ValidConfig(c) && IsRun(c, states, actions) && NoIdleInterrupts(states, actions) && m <= |actions|
    ensures m + Rank(c, states[m]) <= Rank(c, Init(c))
  {
    if m > 0 {
      RunIsBounded(c, states, actions, m - 1);
      RunInv(c, states, actions, m - 1);
      assert states[m - 1 + 1] == Next(c, states[m - 1], actions[m - 1]);
      StepLowersRank(c, states[m - 1], actions[m - 1]);
    }
  }

  lemma RankBounds(c: Config, s: State)
    requires Inv(c, s)
    ensures 0 <= Rank(c, s)
  {
    hide InputWeight, WorkersWeight, TestsInv, Conserved;
  }

  lemma {:induction false} InitialRank(c: Config)
    ensures Rank(c, Init(c)) == 6 * |c.jobs| + 4 * c.n + 5
  {
    IdleWeight(c.n);
  }

  lemma {:induction false} IdleWeight(n: nat)
    ensures WorkersWeight(seq(n, _ => Waiting)) == 0
  {
    if n > 0 {
      IdleWeight(n - 1);
      assert seq(n, _ => Waiting)[..n - 1] == seq(n - 1, _ => Waiting);
    }
  }

  /** Every run ends: it has at most 6 steps a job, 4 a worker and 5 more, and when no thread can step
      all results are in, every worker has returned and both queues are empty. */
  lemma EveryRunFinishes(c: Config, states: seq<State>, actions: seq<Action>)
    requires ValidConfig(c) && IsRun(c, states, actions) && (c.n >= 1 || c.jobs == [])
    ensures NoIdleInterrupts(states, actions) ==> |actions| <= 6 * |c.jobs| + 4 * c.n + 5
    ensures var s := states[|actions|]; !CanStep(c, s) ==>
      && s.main.Done? && s.input == [] && s.output == [] && |s.collected| == |c.jobs|
      && forall i :: 0 <= i < |s.workers| ==> s.workers[i].Returned?
  {
    hide Rank, CanStep;
    var s := states[|actions|];
    RunInv(c, states, actions, |actions|);
    RankBounds(c, s);
    InitialRank(c);
    if NoIdleInterrupts(states, actions) {
      RunIsBounded(c, states, actions, |actions|);
    }
    assert states[|states| - 1] == s;
    assert Reachable(c, s);
    if !s.main.Done? {
      NeverStuck(c, s);
    } else {
      JoinPhase(c, s);
    }
  }
}
