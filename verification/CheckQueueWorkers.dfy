/** No check is left waiting for a worker that nobody told: the notifications to the workers are enough. */
module CheckQueueWorkers {
  import opened CheckQueue
  import opened CheckQueueRuns

  /** A worker that is awake or notified will look at the queue without being told again. */
  function Coming(t: Thread): (n: nat)
    ensures n <= 1 && (n == 1 <==> !t.Outside? && t != Asleep(false))
  {
    match t
    case Outside => 0
    case Back(_, _) => 1
    case Asleep(notified) => if notified then 1 else 0
    case Running(_, _) => 1
  }

  ghost predicate SomeSleeps(threads: seq<Thread>) {
    exists i :: 0 < i < |threads| && threads[i] == Asleep(false)
  }

  /** While some worker sleeps and was not told, as many others will look as there are checks in the queue. */
  ghost predicate EnoughCome(s: State) {
    && s.threads != []
    && (SomeSleeps(s.threads) ==> |s.sh.queue| <= Total(s.threads[1..], Coming))
  }

  /** One worker does something else. */
  lemma OneWorker(threads: seq<Thread>, who: nat, t: Thread)
    requires 0 < who < |threads|
    ensures Total(threads[who := t][1..], Coming) == Total(threads[1..], Coming) - Coming(threads[who]) + Coming(t)
    ensures SomeSleeps(threads[who := t]) && t != Asleep(false) ==> SomeSleeps(threads)
  {
    assert threads[who := t][1..] == threads[1..][who - 1 := t];
    TotalUpdate(threads[1..], who - 1, t, Coming);
  }

  /** The master does something else. */
  lemma OnlyMaster(threads: seq<Thread>, t: Thread)
    requires threads != []
    ensures threads[MASTER := t][1..] == threads[1..]
    ensures SomeSleeps(threads[MASTER := t]) <==> SomeSleeps(threads)
  {
    if SomeSleeps(threads) {
      var i :| 0 < i < |threads| && threads[i] == Asleep(false);
      assert threads[MASTER := t][i] == Asleep(false);
    }
    if SomeSleeps(threads[MASTER := t]) {
      var i :| 0 < i < |threads| && threads[MASTER := t][i] == Asleep(false);
      assert threads[i] == Asleep(false);
    }
  }

  /** A look at the queue takes something, or finds it empty. */
  lemma LookLeaves(s: State, who: nat, nBatchSize: nat)
    requires EnoughCome(s) && who < |s.threads| && s.sh.nTotal + s.sh.nIdle + 1 > 0
    ensures EnoughCome(Looks(s, who, nBatchSize))
  {
    var (sh, outcome) := Look(s.sh, who == MASTER, nBatchSize);
    if s.sh.queue != [] {
      BatchFits(s.sh, nBatchSize);
      assert |sh.queue| < |s.sh.queue|;
      if who == MASTER {
        OnlyMaster(s.threads, ToThread(outcome));
      } else {
        OneWorker(s.threads, who, ToThread(outcome));
      }
    } else {
      assert |sh.queue| == 0;
    }
  }

  /** What is handed over: one worker is told of one check, and all of more. */
  lemma AddsTell(s: State, checks: seq<Check>, woken: nat, nBatchSize: nat)
    requires EnoughCome(s) && CanStep(s, Adds(checks, woken))
    ensures EnoughCome(Next(s, Adds(checks, woken), nBatchSize).state)
    ensures |checks| > 1 ==> !SomeSleeps(Next(s, Adds(checks, woken), nBatchSize).state.threads)
  {
    if |checks| == 1 && woken < |s.threads| && woken != MASTER && s.threads[woken].Asleep? {
      OneWorker(s.threads, woken, Asleep(true));
    }
  }

  /** No step of any thread leaves more checks than workers will look for, while one of them sleeps. */
  lemma StepTells(s: State, step: Step, nBatchSize: nat)
    requires Inv(s) && CanStep(s, step) && EnoughCome(s)
    ensures Next(s, step, nBatchSize).Then? && EnoughCome(Next(s, step, nBatchSize).state)
  {
    StepKeeps(s, step, nBatchSize);
    hide Inv, Looks, Look, Total;
    match step
    case Adds(checks, woken) => AddsTell(s, checks, woken, nBatchSize);
    case CallsWait => OnlyMaster(s.threads, Back(0, true));
    case Starts(who) => OneWorker(s.threads, who, Back(0, true));
    case Enters(who) =>
      var s' := Entered(s, who);
      if s.threads[MASTER].Asleep? {
        OnlyMaster(s.threads, Asleep(true));
      }
      LookLeaves(s', who, nBatchSize);
    case Wakes(who) => LookLeaves(s.(sh := Awoken(s.sh)), who, nBatchSize);
    case Runs(who) =>
      var t := Back(|s.threads[who].batch|, Evaluated(s.threads[who].batch, s.threads[who].fOk));
      if who == MASTER {
        OnlyMaster(s.threads, t);
      } else {
        OneWorker(s.threads, who, t);
      }
  }

  lemma {:induction false} RunTells(s: State, steps: seq<Step>, nBatchSize: nat)
    requires Inv(s) && EnoughCome(s) && CanRun(s, steps, nBatchSize)
    ensures EnoughCome(After(s, steps, nBatchSize))
    decreases |steps|
  {
    hide Inv, Next, CanStep, EnoughCome;
    if steps != [] {
      StepKeeps(s, steps[0], nBatchSize);
      StepTells(s, steps[0], nBatchSize);
      RunTells(Next(s, steps[0], nBatchSize).state, steps[1..], nBatchSize);
    }
  }

  /** In every interleaving: while some worker sleeps without having been told, there are at least as many others
      awake or told as checks in the queue. */
  lemma WorkersAreTold(workers: nat, steps: seq<Step>, nBatchSize: nat)
    requires CanRun(Start(workers), steps, nBatchSize)
    ensures var e := After(Start(workers), steps, nBatchSize);
      && |e.threads| > 0
      && ((exists i :: 0 < i < |e.threads| && e.threads[i] == Asleep(false)) ==>
            |e.sh.queue| <= Total(e.threads[1..], Coming))
  {
    StartIsInv(workers);
    RunTells(Start(workers), steps, nBatchSize);
  }
}
