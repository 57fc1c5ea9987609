/** The queue object driven through the steps of the state machine: its fields stay those of the state. */
module CheckQueueObject {
  import opened CheckQueue
  import opened CheckQueueRuns

  /** A thread takes the lock with what it has finished, and looks at the queue. */
  method Enter(q: Queue, s: State, who: nat) returns (s': State)
    requires Inv(s) && CanStep(s, Enters(who)) && q.Fields() == s.sh
    modifies q
    ensures Next(s, Enters(who), q.nBatchSize) == Then(s') && q.Fields() == s'.sh
  {
    hide Look, Inv, NotifyMaster;
    StepKeeps(s, Enters(who), q.nBatchSize);
    var t := s.threads[who];
    var wakeMaster := q.ComeBack(who == MASTER, t.nNow, t.fOk);
    var threads := if wakeMaster then NotifyMaster(s.threads) else s.threads;
    s' := LookAgain(q, s.(threads := threads), who);
  }

  /** A thread that waited has the lock again. */
  method Wake(q: Queue, s: State, who: nat) returns (s': State)
    requires Inv(s) && CanStep(s, Wakes(who)) && q.Fields() == s.sh
    modifies q
    ensures Next(s, Wakes(who), q.nBatchSize) == Then(s') && q.Fields() == s'.sh
  {
    hide Look, Inv;
    StepKeeps(s, Wakes(who), q.nBatchSize);
    q.WakeUp();
    s' := LookAgain(q, s, who);
  }

  /** The queue looked at: a batch, sleep, or the end of a Wait. */
  method LookAgain(q: Queue, s: State, who: nat) returns (s': State)
    requires who < |s.threads| && q.nTotal + q.nIdle + 1 > 0
    modifies q
    ensures s' == Looks(s.(sh := old(q.Fields())), who, q.nBatchSize) && q.Fields() == s'.sh
  {
    var outcome := q.LookForWork(who == MASTER);
    var sh := Shared(q.queue, q.nIdle, q.nTotal, q.fAllOk, q.nTodo);
    var threads := s.threads[who := ToThread(outcome)];
    match outcome
    case Leave(fRet) => s' := State(sh, threads, [], s.verdicts + [(s.added, fRet)]);
    case _ => s' := s.(sh := sh, threads := threads);
  }

  /** The master hands checks over. */
  method HandOver(q: Queue, s: State, checks: seq<Check>, woken: nat) returns (s': State)
    requires CanStep(s, Adds(checks, woken)) && q.Fields() == s.sh
    modifies q
    ensures Next(s, Adds(checks, woken), q.nBatchSize) == Then(s') && q.Fields() == s'.sh
  {
    var notify := q.Add(checks);
    var sh := Shared(q.queue, q.nIdle, q.nTotal, q.fAllOk, q.nTodo);
    var threads := s.threads;
    match notify {
      case NotifyNone =>
      case NotifyOne =>
        if woken < |threads| && woken != MASTER && threads[woken].Asleep? {
          threads := threads[woken := Asleep(true)];
        }
      case NotifyAll =>
        threads := NotifyWorkers(threads);
    }
    s' := s.(sh := sh, threads := threads, added := s.added + checks);
  }

  /** One step of any thread. */
  method Enact(q: Queue, s: State, step: Step) returns (s': State)
    requires Inv(s) && CanStep(s, step) && q.Fields() == s.sh
    modifies q
    ensures Next(s, step, q.nBatchSize) == Then(s') && q.Fields() == s'.sh && Inv(s')
  {
    hide Inv, Look;
    StepKeeps(s, step, q.nBatchSize);
    match step
    case Adds(checks, woken) => s' := HandOver(q, s, checks, woken);
    case CallsWait => s' := s.(threads := s.threads[MASTER := Back(0, true)]);
    case Starts(who) => s' := s.(threads := s.threads[who := Back(0, true)]);
    case Enters(who) => s' := Enter(q, s, who);
    case Wakes(who) => s' := Wake(q, s, who);
    case Runs(who) =>
      var t := s.threads[who];
      var fOk := q.RunBatch(t.batch, t.fOk);
      s' := s.(threads := s.threads[who := Back(|t.batch|, fOk)]);
  }

  /** A whole run on a new queue object. Whether it ends idle says whether all work is done and nothing failed. */
  method Play(workers: nat, steps: seq<Step>, nBatchSize: nat) returns (q: Queue, s: State, idle: bool)
    requires CanRun(Start(workers), steps, nBatchSize)
    ensures fresh(q) && s == After(Start(workers), steps, nBatchSize) && q.Fields() == s.sh
    ensures idle <==> s.sh.nTodo == 0 && AllPass(s.added)
  {
    hide Inv, Next, CanStep;
    q := new Queue(nBatchSize);
    s := Start(workers);
    StartIsInv(workers);
    for i := 0 to |steps|
      invariant q.Fields() == s.sh && Inv(s) && q.nBatchSize == nBatchSize
      invariant CanRun(s, steps[i..], nBatchSize)
      invariant After(s, steps[i..], nBatchSize) == After(Start(workers), steps, nBatchSize)
    {
      assert steps[i..][1..] == steps[i + 1..];
      s := Enact(q, s, steps[i]);
    }
    idle := q.IsIdle();
    IdleMeans(s);
  }
}
