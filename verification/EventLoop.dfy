/** The batched event loop of bindings/python/ns3module_helpers.cc, for any simulation, and the self-rescheduling
    benchmark of utils/bench-simulator.cc as one simulation it can run. */
module EventLoop {

  // ---- any simulation ----

  /** n single events, stopped as soon as the simulation is finished. */
  function Steps<S>(s: S, run: S -> S, finished: S -> bool, n: int): S
    decreases n
  {
    if n <= 0 || finished(s) then s else Steps(run(s), run, finished, n - 1)
  }

  /** The states in which those events are run, in order. */
  function Trace<S>(s: S, run: S -> S, finished: S -> bool, n: int): seq<S>
    decreases n
  {
    if n <= 0 || finished(s) then [] else [s] + Trace(run(s), run, finished, n - 1)
  }

  /** The state after that many rounds of the outer loop, each a batch of at most `size` events. */
  function Rounds<S>(s: S, run: S -> S, finished: S -> bool, size: int, rounds: nat): S {
    if rounds == 0 then s else Steps(Rounds(s, run, finished, size, rounds - 1), run, finished, size)
  }

  function RoundsTrace<S>(s: S, run: S -> S, finished: S -> bool, size: int, rounds: nat): seq<S> {
    if rounds == 0 then []
    else
      RoundsTrace(s, run, finished, size, rounds - 1)
      + Trace(Rounds(s, run, finished, size, rounds - 1), run, finished, size)
  }

  /** Running a batch and then more is running them together. */
  lemma {:induction false} StepsAdd<S>(s: S, run: S -> S, finished: S -> bool, a: nat, b: nat)
    ensures Steps(Steps(s, run, finished, a), run, finished, b) == Steps(s, run, finished, a + b)
    ensures Trace(s, run, finished, a) + Trace(Steps(s, run, finished, a), run, finished, b) == Trace(s, run, finished, a + b)
  {
    if a > 0 && !finished(s) {
      StepsAdd(run(s), run, finished, a - 1, b);
    } else if finished(s) {
      assert Steps(s, run, finished, b) == s;
    }
  }

  /** After k rounds of size f the simulation is where f * k single events take it, by the same events. */
  lemma {:induction false} RoundsAreSteps<S>(s: S, run: S -> S, finished: S -> bool, size: nat, rounds: nat)
    ensures Rounds(s, run, finished, size, rounds) == Steps(s, run, finished, size * rounds)
    ensures RoundsTrace(s, run, finished, size, rounds) == Trace(s, run, finished, size * rounds)
  {
    if rounds > 0 {
      RoundsAreSteps(s, run, finished, size, rounds - 1);
      assert size * rounds == size * (rounds - 1) + size;
      StepsAdd(s, run, finished, size * (rounds - 1), size);
    }
  }

  /** A finished simulation stays as it is, and runs no more events. */
  lemma FinishedStays<S>(s: S, run: S -> S, finished: S -> bool, m: nat, n: nat)
    requires finished(Steps(s, run, finished, m)) && m <= n
    ensures Steps(s, run, finished, n) == Steps(s, run, finished, m) && Trace(s, run, finished, n) == Trace(s, run, finished, m)
  {
    StepsAdd(s, run, finished, m, n - m);
  }

  lemma NextStep<S>(s: S, run: S -> S, finished: S -> bool, n: int)
    requires !finished(s) && finished(Steps(s, run, finished, n))
    ensures n >= 1 && Steps(s, run, finished, n) == Steps(run(s), run, finished, n - 1)
    ensures Trace(s, run, finished, n) == [s] + Trace(run(s), run, finished, n - 1)
  {
  }

  lemma NoMoreSteps<S>(s: S, run: S -> S, finished: S -> bool, n: int)
    requires finished(s)
    ensures Steps(s, run, finished, n) == s && Trace(s, run, finished, n) == []
  {
  }

  lemma {:induction false} NoProgress<S>(s: S, run: S -> S, finished: S -> bool, size: int, rounds: nat)
    requires size <= 0
    ensures Rounds(s, run, finished, size, rounds) == s
  {
    if rounds > 0 {
      NoProgress(s, run, finished, size, rounds - 1);
    }
  }

  ghost predicate Ends<S(!new)>(s: S, run: S -> S, finished: S -> bool) {
    exists n: nat :: finished(Steps(s, run, finished, n))
  }

  ghost predicate BatchedEnds<S(!new)>(s: S, run: S -> S, finished: S -> bool, size: int) {
    exists rounds: nat :: finished(Rounds(s, run, finished, size, rounds))
  }

  /** The batched loop ends exactly when running one event at a time ends and the batch size is positive,
      or nothing was to be run. */
  lemma BatchedEndsIff<S(!new)>(s: S, run: S -> S, finished: S -> bool, size: int)
    ensures BatchedEnds(s, run, finished, size) <==> finished(s) || (size >= 1 && Ends(s, run, finished))
  {
    if finished(s) {
      assert finished(Rounds(s, run, finished, size, 0));
    } else if size <= 0 {
      forall rounds: nat ensures Rounds(s, run, finished, size, rounds) == s {
        NoProgress(s, run, finished, size, rounds);
      }
    } else {
      forall rounds: nat ensures Rounds(s, run, finished, size, rounds) == Steps(s, run, finished, size * rounds) {
        RoundsAreSteps(s, run, finished, size, rounds);
      }
      if n: nat :| finished(Steps(s, run, finished, n)) {
        FinishedStays(s, run, finished, n, size * n);
        assert finished(Rounds(s, run, finished, size, n));
      }
    }
  }

  /** Where both end they end in the same state, having run the same events in the same order. */
  lemma BatchedIsSingle<S>(s: S, run: S -> S, finished: S -> bool, size: nat, rounds: nat, n: nat)
    requires finished(Rounds(s, run, finished, size, rounds)) && finished(Steps(s, run, finished, n))
    ensures Rounds(s, run, finished, size, rounds) == Steps(s, run, finished, n)
    ensures RoundsTrace(s, run, finished, size, rounds) == Trace(s, run, finished, n)
  {
    RoundsAreSteps(s, run, finished, size, rounds);
    var m := size * rounds;
    FinishedStays(s, run, finished, m, m + n);
    FinishedStays(s, run, finished, n, m + n);
  }

  /** The simulator: its state, what an event does to it, and when it is finished. */
  class Simulator<S> {
    const run: S -> S
    const finished: S -> bool
    var state: S
    var log: seq<S>

    constructor (state: S, run: S -> S, finished: S -> bool)
      ensures this.state == state && this.run == run && this.finished == finished && log == []
    {
      this.state, this.run, this.finished, log := state, run, finished, [];
    }

    method RunOneEvent()
      modifies this
      ensures state == run(old(state)) && log == old(log) + [old(state)]
    {
      log := log + [state];
      state := run(state);
    }

    /** What is still to be run completes the run from `start`. */
    ghost predicate Remaining(start: S, before: seq<S>, n: nat, left: int)
      reads this
    {
      && left >= 0 && finished(Steps(state, run, finished, left))
      && Steps(state, run, finished, left) == Steps(start, run, finished, n)
      && log + Trace(state, run, finished, left) == before + Trace(start, run, finished, n)
    }

    /** One event of a run that is not complete. */
    method Advance(ghost start: S, ghost before: seq<S>, ghost n: nat, ghost left: int)
      requires Remaining(start, before, n, left) && !finished(state)
      modifies this
      ensures left >= 1 && Remaining(start, before, n, left - 1)
    {
      hide Steps, Trace;
      NextStep(state, run, finished, left);
      RunOneEvent();
    }

    /** _wrap_Simulator_Run on a simulation that n single events finish: for every batch size it ends in the state, and
        with the events, of running one event at a time. */
    method WrapRun(signalCheckFrequency: int, ghost n: nat)
      requires finished(Steps(state, run, finished, n))
      requires signalCheckFrequency == -1 || signalCheckFrequency >= 1 || finished(state)
      modifies this
      ensures finished(state) && state == Steps(old(state), run, finished, n)
      ensures log == old(log) + Trace(old(state), run, finished, n)
    {
      hide Steps, Trace;
      ghost var left := n;
      if signalCheckFrequency == -1 {
        while !finished(state)
          invariant Remaining(old(state), old(log), n, left)
          decreases left
        {
          Advance(old(state), old(log), n, left);
          left := left - 1;
        }
      } else {
        while !finished(state)
          invariant Remaining(old(state), old(log), n, left)
          invariant signalCheckFrequency >= 1 || finished(state)
          decreases left
        {
          var k := signalCheckFrequency;
          ghost var before := left;
          while k > 0 && !finished(state)
            invariant Remaining(old(state), old(log), n, left) && left <= before
            invariant left == before ==> k == signalCheckFrequency && !finished(state)
            decreases k
          {
            Advance(old(state), old(log), n, left);
            left := left - 1;
            k := k - 1;
          }
        }
      }
      NoMoreSteps(state, run, finished, left);
    }
  }

  // ---- the benchmark ----

  /** Pending events in the order they are due, and the benchmark's counters. Events are numbered as scheduled. */
  datatype Sim = Sim(pending: seq<nat>, scheduled: nat, count: nat, executed: seq<nat>)

  /** Random delays: the place in the queue that the k-th scheduled event gets. */
  type Delays = nat -> nat

  function Schedule(s: Sim, delay: Delays): Sim {
    var p := if delay(s.scheduled) < |s.pending| then delay(s.scheduled) else |s.pending|;
    s.(pending := s.pending[..p] + [s.scheduled] + s.pending[p..], scheduled := s.scheduled + 1)
  }

  predicate IsFinished(s: Sim) {
    s.pending == []
  }

  /** Bench::Cb */
  function Callback(s: Sim, delay: Delays, total: nat): Sim {
    if s.count >= total then s
    else
      var t := Schedule(s, delay);
      t.(count := t.count + 1)
  }

  /** The next event, of a simulation whose every event is the benchmark's callback. */
  function NextEvent(s: Sim, delay: Delays, total: nat): Sim
    requires !IsFinished(s)
  {
    Callback(s.(pending := s.pending[1..], executed := s.executed + [s.pending[0]]), delay, total)
  }

  function BenchRun(delay: Delays, total: nat): Sim -> Sim {
    (s: Sim) => if IsFinished(s) then s else NextEvent(s, delay, total)
  }

  /** The callbacks still to come. */
  function Left(s: Sim, total: nat): nat {
    |s.pending| + if s.count < total && s.pending != [] then total - s.count else 0
  }

  lemma EventLowersLeft(s: Sim, delay: Delays, total: nat)
    requires !IsFinished(s)
    ensures Left(NextEvent(s, delay, total), total) == Left(s, total) - 1
  {
  }

  function After(s: Sim, delay: Delays, total: nat, n: int): Sim {
    Steps(s, BenchRun(delay, total), IsFinished, n)
  }

  lemma AfterNext(s: Sim, delay: Delays, total: nat, n: int)
    requires !IsFinished(s) && n >= 1
    ensures After(s, delay, total, n) == After(NextEvent(s, delay, total), delay, total, n - 1)
  {
    hide NextEvent;
  }

  lemma AfterEnd(s: Sim, delay: Delays, total: nat, n: int)
    requires IsFinished(s)
    ensures After(s, delay, total, n) == s
  {
  }

  /** The benchmark ends, after exactly as many events as are left. */
  lemma {:induction false} BenchEnds(s: Sim, delay: Delays, total: nat)
    ensures IsFinished(After(s, delay, total, Left(s, total)))
    ensures |Trace(s, BenchRun(delay, total), IsFinished, Left(s, total))| == Left(s, total)
    decreases Left(s, total)
  {
    if !IsFinished(s) {
      EventLowersLeft(s, delay, total);
      BenchEnds(NextEvent(s, delay, total), delay, total);
    }
  }

  /** Before and after every event: the population is constant until the total is reached, and then drains.
      `done` events were executed before the benchmark started. */
  ghost predicate BenchInv(s: Sim, done: nat, population: nat, total: nat) {
    && s.count <= total
    && |s.executed| + |s.pending| == done + population + s.count
    && (s.count < total ==> |s.pending| == population)
  }

  /** Every event scheduled so far is either pending or executed, and only once. */
  ghost predicate EachOnce(s: Sim) {
    forall e: nat {:trigger multiset(s.executed)[e]} :: multiset(s.executed)[e] + multiset(s.pending)[e] == if e < s.scheduled then 1 else 0
  }

  lemma ScheduleKeepsOnce(s: Sim, delay: Delays)
    requires EachOnce(s)
    ensures EachOnce(Schedule(s, delay))
  {
    var t := Schedule(s, delay);
    var p := if delay(s.scheduled) < |s.pending| then delay(s.scheduled) else |s.pending|;
    assert s.pending == s.pending[..p] + s.pending[p..];
    assert multiset(t.pending) == multiset(s.pending) + multiset{s.scheduled};
  }

  lemma EventKeepsBench(s: Sim, delay: Delays, done: nat, population: nat, total: nat)
    requires BenchInv(s, done, population, total) && EachOnce(s) && !IsFinished(s)
    ensures BenchInv(NextEvent(s, delay, total), done, population, total) && EachOnce(NextEvent(s, delay, total))
  {
    var t := s.(pending := s.pending[1..], executed := s.executed + [s.pending[0]]);
    assert s.pending == [s.pending[0]] + s.pending[1..];
    assert EachOnce(t) by {
      assert multiset(s.pending) == multiset{s.pending[0]} + multiset(t.pending);
    }
    ScheduleKeepsOnce(t, delay);
    var u := Schedule(t, delay);
    assert EachOnce(u) ==> EachOnce(u.(count := u.count + 1)) by {
      assert u.(count := u.count + 1).pending == u.pending;
    }
  }

  /** After any number of events. */
  lemma {:induction false} BenchAlways(s: Sim, delay: Delays, done: nat, population: nat, total: nat, n: int)
    requires BenchInv(s, done, population, total) && EachOnce(s)
    ensures BenchInv(After(s, delay, total, n), done, population, total) && EachOnce(After(s, delay, total, n))
    decreases n
  {
    if n > 0 && !IsFinished(s) {
      EventKeepsBench(s, delay, done, population, total);
      BenchAlways(NextEvent(s, delay, total), delay, done, population, total, n - 1);
    }
  }

  /** In batches of any positive size the benchmark ends too, in the same state. */
  lemma BenchInBatches(s: Sim, delay: Delays, total: nat, size: nat)
    requires size >= 1
    ensures exists rounds: nat :: Rounds(s, BenchRun(delay, total), IsFinished, size, rounds) == After(s, delay, total, Left(s, total))
  {
    var run := BenchRun(delay, total);
    BenchEnds(s, delay, total);
    assert Ends(s, run, IsFinished);
    BatchedEndsIff(s, run, IsFinished, size);
    var rounds: nat :| IsFinished(Rounds(s, run, IsFinished, size, rounds));
    BatchedIsSingle(s, run, IsFinished, size, rounds, Left(s, total));
  }

  /** The simulator's queue, and the benchmark whose callback is its every event. */
  class Bench {
    const delay: Delays
    const population: nat
    const total: nat
    var pending: seq<nat>
    var scheduled: nat
    var count: nat
    var executed: seq<nat>

    constructor (delay: Delays, population: nat, total: nat)
      ensures this.delay == delay && this.population == population && this.total == total
      ensures State() == Sim([], 0, 0, []) && EachOnce(State())
    {
      this.delay, this.population, this.total := delay, population, total;
      pending, scheduled, count, executed := [], 0, 0, [];
    }

    function State(): Sim
      reads this
    {
      Sim(pending, scheduled, count, executed)
    }

    method ScheduleCb()
      modifies this
      ensures State() == Schedule(old(State()), delay)
    {
      var p := if delay(scheduled) < |pending| then delay(scheduled) else |pending|;
      pending := pending[..p] + [scheduled] + pending[p..];
      scheduled := scheduled + 1;
    }

    method Cb()
      modifies this
      ensures State() == Callback(old(State()), delay, total)
    {
      if count >= total {
        return;
      }
      ScheduleCb();
      count := count + 1;
    }

    method RunNext()
      requires !IsFinished(State())
      modifies this
      ensures State() == NextEvent(old(State()), delay, total)
    {
      var event := pending[0];
      pending := pending[1..];
      executed := executed + [event];
      Cb();
    }

    /** Simulator::Run: one event at a time until none is pending. */
    method Run()
      modifies this
      ensures State() == After(old(State()), delay, total, Left(old(State()), total)) && IsFinished(State())
    {
      hide After, NextEvent, Left;
      ghost var start := State();
      BenchEnds(start, delay, total);
      while !IsFinished(State())
        invariant After(State(), delay, total, Left(State(), total)) == After(start, delay, total, Left(start, total))
        decreases Left(State(), total)
      {
        EventLowersLeft(State(), delay, total);
        AfterNext(State(), delay, total, Left(State(), total));
        RunNext();
      }
      AfterEnd(State(), delay, total, Left(State(), total));
    }

    /** Schedules the population, then runs: population + total callbacks, unless there is no population,
        and every event scheduled was executed once. */
    method RunBench()
      requires IsFinished(State()) && EachOnce(State())
      modifies this
      ensures IsFinished(State()) && EachOnce(State())
      ensures population > 0 ==> count == total && |executed| == |old(executed)| + population + total
      ensures population == 0 ==> count == 0 && executed == old(executed)
    {
      count := 0;
      assert EachOnce(State()) by {
        assert State().executed == old(State()).executed && State().pending == old(State()).pending;
      }
      ghost var done := |executed|;
      for i := 0 to population
        invariant |pending| == i && count == 0 && executed == old(executed) && EachOnce(State())
      {
        ScheduleKeepsOnce(State(), delay);
        ScheduleCb();
      }
      hide EachOnce;
      ghost var s := State();
      BenchAlways(s, delay, done, population, total, Left(s, total));
      Run();
    }
  }
}
