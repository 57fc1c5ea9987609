/**
 * The verification queue as a state machine: one master, any number of workers, and a step for
 * each critical section and for each evaluation of a batch outside the lock.
 */
module CheckQueueRuns {
  import opened CheckQueue

  /** Where a thread is, always outside the lock. */
  datatype Thread =
    | Outside                                 // not in the loop
    | Back(nNow: nat, fOk: bool)              // about to take the lock, with nNow finished checks
    | Asleep(notified: bool)                  // waiting on its condition variable
    | Running(batch: seq<Check>, fOk: bool)   // about to evaluate its batch

  const MASTER := 0

  /** The added checks are those since the last Wait; each verdict goes with the checks it is about. */
  datatype State = State(
    sh: Shared,
    threads: seq<Thread>,
    added: seq<Check>,
    verdicts: seq<(seq<Check>, bool)>)

  datatype Step =
    | Adds(checks: seq<Check>, woken: nat)    // the worker that notify_one picks, if it picks any
    | CallsWait
    | Starts(who: nat)
    | Enters(who: nat)
    | Wakes(who: nat)
    | Runs(who: nat)

  function Start(workers: nat): State {
    State(UNUSED, seq(workers + 1, _ => Outside), [], [])
  }

  // Who is where

  function Total(threads: seq<Thread>, f: Thread -> nat): nat {
    if threads == [] then 0 else f(threads[0]) + Total(threads[1..], f)
  }

  function InLoop(t: Thread): nat {
    match t
    case Outside => 0
    case Back(nNow, _) => if nNow == 0 then 0 else 1
    case Asleep(_) => 1
    case Running(_, _) => 1
  }

  function Sleeping(t: Thread): nat { if t.Asleep? then 1 else 0 }

  function Held(t: Thread): nat {
    match t
    case Outside => 0
    case Back(nNow, _) => nNow
    case Asleep(_) => 0
    case Running(batch, _) => |batch|
  }

  function Busy(t: Thread): nat { if Held(t) > 0 then 1 else 0 }

  /** How far a thread is from needing someone else: what is left to do without new work. */
  function Rank(t: Thread): nat {
    match t
    case Outside => 2
    case Back(nNow, _) => if nNow == 0 then 1 else 0
    case Asleep(notified) => if notified then 1 else 0
    case Running(_, _) => 1
  }

  /** Nothing failed in what the thread holds. */
  ghost predicate Good(t: Thread) {
    match t
    case Outside => true
    case Back(_, fOk) => fOk
    case Asleep(_) => true
    case Running(batch, fOk) => fOk && AllPass(batch)
  }

  ghost predicate AllGood(threads: seq<Thread>) {
    forall i | 0 <= i < |threads| :: Good(threads[i])
  }

  // Steps

  function ToThread(outcome: Outcome): Thread {
    match outcome
    case Work(batch, fOk) => Running(batch, fOk)
    case Sleep => Asleep(false)
    case Leave(_) => Outside
  }

  /** notify_all reaches the workers that wait; the master waits elsewhere. */
  function NotifyWorkers(threads: seq<Thread>): seq<Thread> {
    seq(|threads|, i requires 0 <= i < |threads| =>
      if i != MASTER && threads[i].Asleep? then Asleep(true) else threads[i])
  }

  function NotifyMaster(threads: seq<Thread>): (r: seq<Thread>)
    ensures |r| == |threads|
  {
    if threads != [] && threads[MASTER].Asleep? then threads[MASTER := Asleep(true)] else threads
  }

  /** A thread that holds the lock looks at the queue, and may end a Wait. */
  function Looks(s: State, who: nat, nBatchSize: nat): State
    requires who < |s.threads| && s.sh.nTotal + s.sh.nIdle + 1 > 0
  {
    var (sh, outcome) := Look(s.sh, who == MASTER, nBatchSize);
    var threads := s.threads[who := ToThread(outcome)];
    if outcome.Leave? then State(sh, threads, [], s.verdicts + [(s.added, outcome.fRet)])
    else s.(sh := sh, threads := threads)
  }

  /** The counters are good enough for the arithmetic of a step to make sense. */
  predicate Counted(s: State) {
    0 <= s.sh.nIdle && 0 <= s.sh.nTotal
  }

  /** Whether a step can be taken. */
  predicate CanStep(s: State, step: Step) {
    && s.threads != []
    && Counted(s)
    && match step
       case Adds(checks, woken) =>
         && s.threads[MASTER].Outside?
         && (Told(|checks|) == NotifyOne ==>
               (woken < |s.threads| && woken != MASTER && s.threads[woken] == Asleep(false))
               || (forall i | 0 < i < |s.threads| :: s.threads[i] != Asleep(false)))
       case CallsWait => s.threads[MASTER].Outside?
       case Starts(who) => MASTER < who < |s.threads| && s.threads[who].Outside?
       case Enters(who) => who < |s.threads| && s.threads[who].Back?
       case Wakes(who) => who < |s.threads| && s.threads[who].Asleep?
       case Runs(who) => who < |s.threads| && s.threads[who].Running?
  }

  /** The state after a step, or a counter about to go below zero. */
  datatype Result = Then(state: State) | Underflow

  /** What the step leads to. */
  function Next(s: State, step: Step, nBatchSize: nat): Result
    requires CanStep(s, step)
  {
    match step
    case Adds(checks, woken) =>
      var threads :=
        match Told(|checks|)
        case NotifyNone => s.threads
        case NotifyOne =>
          if woken < |s.threads| && woken != MASTER && s.threads[woken].Asleep?
          then s.threads[woken := Asleep(true)] else s.threads
        case NotifyAll => NotifyWorkers(s.threads);
      Then(s.(sh := HandedTo(s.sh, checks), threads := threads, added := s.added + checks))
    case CallsWait => Then(s.(threads := s.threads[MASTER := Back(0, true)]))
    case Starts(who) => Then(s.(threads := s.threads[who := Back(0, true)]))
    case Enters(who) =>
      var t := s.threads[who];
      if t.nNow > s.sh.nTodo then Underflow
      else
        var sh := Returned(s.sh, t.nNow, t.fOk);
        var threads := if t.nNow > 0 && sh.nTodo == 0 && who != MASTER then NotifyMaster(s.threads) else s.threads;
        Then(Looks(s.(sh := sh, threads := threads), who, nBatchSize))
    case Wakes(who) =>
      if s.sh.nIdle == 0 then Underflow
      else Then(Looks(s.(sh := Awoken(s.sh)), who, nBatchSize))
    case Runs(who) =>
      var t := s.threads[who];
      Then(s.(threads := s.threads[who := Back(|t.batch|, Evaluated(t.batch, t.fOk))]))
  }

  // The invariant

  ghost predicate Inv(s: State) {
    && Counts(s)
    && Verdict(s)
    && (forall i | 0 <= i < |s.threads| :: WellFormed(s.threads[i]))
  }

  /** The counters count what they are for, and the master only sleeps while there is work out. */
  ghost predicate Counts(s: State) {
    && s.threads != []
    && s.sh.nTotal == Total(s.threads, InLoop)
    && s.sh.nIdle == Total(s.threads, Sleeping)
    && s.sh.nTodo == |s.sh.queue| + Total(s.threads, Held)
    && s.sh.nTodo <= |s.added|
    && (s.threads[MASTER] == Asleep(false) ==> s.sh.queue == [] && s.sh.nTodo > 0)
  }

  /** Every failure among the added checks is still queued, held by a thread, or noted. */
  ghost predicate Verdict(s: State) {
    && (AllPass(s.added) <==> s.sh.fAllOk && AllPass(s.sh.queue) && AllGood(s.threads))
    && (forall i | 0 <= i < |s.verdicts| :: s.verdicts[i].1 <==> AllPass(s.verdicts[i].0))
  }

  ghost predicate WellFormed(t: Thread) {
    match t
    case Outside => true
    case Back(nNow, fOk) => nNow == 0 ==> fOk
    case Asleep(_) => true
    case Running(batch, _) => batch != []
  }

  // Sums

  lemma {:induction false} TotalUpdate(threads: seq<Thread>, i: nat, t: Thread, f: Thread -> nat)
    requires i < |threads|
    ensures Total(threads[i := t], f) == Total(threads, f) - f(threads[i]) + f(t)
  {
    if i > 0 {
      assert threads[i := t][1..] == threads[1..][i - 1 := t];
      TotalUpdate(threads[1..], i - 1, t, f);
    } else {
      assert threads[i := t][1..] == threads[1..];
    }
  }

  lemma {:induction false} TotalSame(threads: seq<Thread>, others: seq<Thread>, f: Thread -> nat)
    requires |threads| == |others| && forall i | 0 <= i < |threads| :: f(threads[i]) == f(others[i])
    ensures Total(threads, f) == Total(others, f)
  {
    if threads != [] {
      TotalSame(threads[1..], others[1..], f);
    }
  }

  lemma {:induction false} TotalZero(threads: seq<Thread>, f: Thread -> nat)
    ensures Total(threads, f) == 0 <==> forall i | 0 <= i < |threads| :: f(threads[i]) == 0
  {
    if threads != [] {
      TotalZero(threads[1..], f);
      if forall i | 0 <= i < |threads| :: f(threads[i]) == 0 {
        assert f(threads[0]) == 0;
        forall i | 0 <= i < |threads[1..]| ensures f(threads[1..][i]) == 0 {
          assert threads[1..][i] == threads[i + 1];
        }
      } else {
        var i :| 0 <= i < |threads| && f(threads[i]) != 0;
        assert i > 0 ==> threads[1..][i - 1] == threads[i];
      }
    }
  }

  lemma {:induction false} TotalAtLeast(threads: seq<Thread>, i: nat, f: Thread -> nat)
    requires i < |threads|
    ensures Total(threads, f) >= f(threads[i])
  {
    if i > 0 {
      TotalAtLeast(threads[1..], i - 1, f);
    }
  }

  // Every step keeps the invariant

  /** A thread while it holds the lock: counted in, holding nothing. */
  const LOOKING := Running([], true)

  lemma AllPassSplit(a: seq<Check>, b: seq<Check>)
    ensures AllPass(a + b) <==> AllPass(a) && AllPass(b)
  {
    if AllPass(a + b) {
      forall i | 0 <= i < |a| ensures a[i].passes { assert (a + b)[i].passes; }
      forall i | 0 <= i < |b| ensures b[i].passes { assert (a + b)[|a| + i].passes; }
    }
  }

  lemma AllPassReverse(s: seq<Check>)
    ensures AllPass(Reverse(s)) <==> AllPass(s)
  {
    if AllPass(Reverse(s)) {
      forall i | 0 <= i < |s| ensures s[i].passes { assert Reverse(s)[|s| - 1 - i].passes; }
    }
  }

  /** With one more thread in the state, what goodness asks for is that thread's goodness. */
  lemma AllGoodUpdate(threads: seq<Thread>, who: nat, t: Thread)
    requires who < |threads| && Good(threads[who])
    ensures AllGood(threads[who := t]) <==> AllGood(threads) && Good(t)
  {
    var after := threads[who := t];
    if AllGood(after) {
      assert Good(after[who]);
      forall i | 0 <= i < |threads| ensures Good(threads[i]) {
        if i != who { assert Good(after[i]); }
      }
    }
  }

  lemma NothingHeld(threads: seq<Thread>)
    requires Total(threads, Held) == 0
    requires forall i | 0 <= i < |threads| :: WellFormed(threads[i]) || threads[i] == LOOKING
    ensures AllGood(threads)
  {
    TotalZero(threads, Held);
    forall i | 0 <= i < |threads| ensures Good(threads[i]) {
      assert Held(threads[i]) == 0;
    }
  }

  lemma LooksCounts(s: State, who: nat, nBatchSize: nat)
    requires Counts(s) && who < |s.threads| && s.threads[who] == LOOKING
    requires 0 <= s.sh.nTotal && 0 <= s.sh.nIdle
    ensures Counts(Looks(s, who, nBatchSize))
  {
    var (sh, outcome) := Look(s.sh, who == MASTER, nBatchSize);
    var t := ToThread(outcome);
    TotalUpdate(s.threads, who, t, InLoop);
    TotalUpdate(s.threads, who, t, Sleeping);
    TotalUpdate(s.threads, who, t, Held);
    if s.sh.queue != [] {
      BatchFits(s.sh, nBatchSize);
    }
  }

  lemma LooksVerdict(s: State, who: nat, nBatchSize: nat)
    requires Counts(s) && Verdict(s) && who < |s.threads| && s.threads[who] == LOOKING
    requires 0 <= s.sh.nTotal && 0 <= s.sh.nIdle
    requires forall i | 0 <= i < |s.threads| :: WellFormed(s.threads[i]) || s.threads[i] == LOOKING
    ensures Verdict(Looks(s, who, nBatchSize))
  {
    hide Total, Reverse, BatchSize, AllGood;
    var (sh, outcome) := Look(s.sh, who == MASTER, nBatchSize);
    AllGoodUpdate(s.threads, who, ToThread(outcome));
    if s.sh.queue != [] {
      BatchFits(s.sh, nBatchSize);
      var n := |s.sh.queue| - BatchSize(s.sh, nBatchSize);
      assert s.sh.queue == s.sh.queue[..n] + s.sh.queue[n..];
      AllPassSplit(s.sh.queue[..n], s.sh.queue[n..]);
      AllPassReverse(s.sh.queue[n..]);
    } else if outcome.Leave? {
      NothingHeld(s.threads);
    }
  }

  /** The state after taking the lock, before looking at the queue. */
  function Entered(s: State, who: nat): State
    requires who < |s.threads| && s.threads[who].Back? && s.threads[who].nNow <= s.sh.nTodo
  {
    var t := s.threads[who];
    var sh := Returned(s.sh, t.nNow, t.fOk);
    s.(sh := sh,
       threads := if t.nNow > 0 && sh.nTodo == 0 && who != MASTER then NotifyMaster(s.threads) else s.threads)
  }

  lemma LooksFrom(s: State, who: nat, nBatchSize: nat)
    requires who < |s.threads| && s.sh.nTotal + s.sh.nIdle + 1 > 0
    ensures Looks(s, who, nBatchSize) == Looks(s.(threads := s.threads[who := LOOKING]), who, nBatchSize)
  {
    var t := ToThread(Look(s.sh, who == MASTER, nBatchSize).1);
    assert s.threads[who := LOOKING][who := t] == s.threads[who := t];
  }

  /** Being notified changes nothing that is counted. */
  lemma NotifyTotals(threads: seq<Thread>, others: seq<Thread>)
    requires |threads| == |others|
    requires forall i | 0 <= i < |threads| :: threads[i] == others[i] || (threads[i].Asleep? && others[i].Asleep?)
    ensures Total(threads, InLoop) == Total(others, InLoop)
    ensures Total(threads, Sleeping) == Total(others, Sleeping)
    ensures Total(threads, Held) == Total(others, Held)
    ensures AllGood(threads) <==> AllGood(others)
  {
    TotalSame(threads, others, InLoop);
    TotalSame(threads, others, Sleeping);
    TotalSame(threads, others, Held);
    if AllGood(threads) {
      forall i | 0 <= i < |others| ensures Good(others[i]) { assert Good(threads[i]); }
    }
    if AllGood(others) {
      forall i | 0 <= i < |threads| ensures Good(threads[i]) { assert Good(others[i]); }
    }
  }

  lemma EnteredCounts(s: State, who: nat)
    requires Inv(s) && who < |s.threads| && s.threads[who].Back?
    ensures s.threads[who].nNow <= s.sh.nTodo
    ensures var e := Entered(s, who); Counts(e.(threads := e.threads[who := LOOKING]))
  {
    hide Total;
    TotalAtLeast(s.threads, who, Held);
    var e := Entered(s, who);
    NotifyTotals(s.threads, e.threads);
    TotalUpdate(e.threads, who, LOOKING, InLoop);
    TotalUpdate(e.threads, who, LOOKING, Sleeping);
    TotalUpdate(e.threads, who, LOOKING, Held);
  }

  lemma EnteredVerdict(s: State, who: nat)
    requires Inv(s) && who < |s.threads| && s.threads[who].Back? && s.threads[who].nNow <= s.sh.nTodo
    ensures var e := Entered(s, who); Verdict(e.(threads := e.threads[who := LOOKING]))
  {
    hide Total;
    var e := Entered(s, who);
    var t := s.threads[who];
    NotifyTotals(s.threads, e.threads);
    assert WellFormed(t);
    // put the thread last: everything but its own goodness is shared
    var before, after := e.threads, e.threads[who := LOOKING];
    assert before == after[who := t];
    AllGoodUpdate(after, who, t);
  }

  lemma EntersKeeps(s: State, who: nat, nBatchSize: nat)
    requires Inv(s) && CanStep(s, Enters(who))
    ensures var r := Next(s, Enters(who), nBatchSize); r.Then? && Inv(r.state)
  {
    hide Total, Counts, Verdict, Looks;
    EnteredCounts(s, who);
    EnteredVerdict(s, who);
    var e := Entered(s, who);
    var l := e.(threads := e.threads[who := LOOKING]);
    TotalsAreCounts(l);
    LooksFrom(e, who, nBatchSize);
    LooksKeeps(l, who, nBatchSize);
  }

  lemma TotalsAreCounts(s: State)
    requires Counts(s)
    ensures 0 <= s.sh.nTotal && 0 <= s.sh.nIdle
  {
  }

  lemma LooksKeeps(s: State, who: nat, nBatchSize: nat)
    requires Counts(s) && Verdict(s) && who < |s.threads| && s.threads[who] == LOOKING
    requires 0 <= s.sh.nTotal && 0 <= s.sh.nIdle
    requires forall i | 0 <= i < |s.threads| && i != who :: WellFormed(s.threads[i])
    ensures Inv(Looks(s, who, nBatchSize))
  {
    hide Counts, Verdict;
    LooksCounts(s, who, nBatchSize);
    LooksVerdict(s, who, nBatchSize);
    if s.sh.queue != [] {
      BatchFits(s.sh, nBatchSize);
    }
  }

  lemma WakesKeeps(s: State, who: nat, nBatchSize: nat)
    requires Inv(s) && CanStep(s, Wakes(who))
    ensures var r := Next(s, Wakes(who), nBatchSize); r.Then? && Inv(r.state)
  {
    hide Total, Looks;
    TotalAtLeast(s.threads, who, Sleeping);
    TotalUpdate(s.threads, who, LOOKING, InLoop);
    TotalUpdate(s.threads, who, LOOKING, Sleeping);
    TotalUpdate(s.threads, who, LOOKING, Held);
    AllGoodUpdate(s.threads, who, LOOKING);
    var e := s.(sh := Awoken(s.sh));
    LooksFrom(e, who, nBatchSize);
    LooksKeeps(e.(threads := e.threads[who := LOOKING]), who, nBatchSize);
  }

  lemma RunsKeeps(s: State, who: nat, nBatchSize: nat)
    requires Inv(s) && CanStep(s, Runs(who))
    ensures var r := Next(s, Runs(who), nBatchSize); r.Then? && Inv(r.state)
  {
    hide Total;
    var s' := Next(s, Runs(who), nBatchSize).state;
    var t, t' := s.threads[who], s'.threads[who];
    TotalUpdate(s.threads, who, t', InLoop);
    TotalUpdate(s.threads, who, t', Sleeping);
    TotalUpdate(s.threads, who, t', Held);
    assert WellFormed(t);
    assert Good(t) <==> Good(t');
    var idle := s.threads[who := Outside];
    assert s.threads == idle[who := t] && s'.threads == idle[who := t'];
    AllGoodUpdate(idle, who, t);
    AllGoodUpdate(idle, who, t');
  }

  lemma AddsKeeps(s: State, checks: seq<Check>, woken: nat, nBatchSize: nat)
    requires Inv(s) && CanStep(s, Adds(checks, woken))
    ensures var r := Next(s, Adds(checks, woken), nBatchSize); r.Then? && Inv(r.state)
  {
    hide Total;
    var s' := Next(s, Adds(checks, woken), nBatchSize).state;
    NotifyTotals(s.threads, s'.threads);
    AllPassSplit(s.added, checks);
    AllPassSplit(s.sh.queue, checks);
  }

  lemma StartsKeeps(s: State, step: Step, nBatchSize: nat)
    requires Inv(s) && (step.Starts? || step.CallsWait?) && CanStep(s, step)
    ensures var r := Next(s, step, nBatchSize); r.Then? && Inv(r.state)
  {
    hide Total;
    var who := if step.Starts? then step.who else MASTER;
    TotalUpdate(s.threads, who, Back(0, true), InLoop);
    TotalUpdate(s.threads, who, Back(0, true), Sleeping);
    TotalUpdate(s.threads, who, Back(0, true), Held);
    AllGoodUpdate(s.threads, who, Back(0, true));
  }

  /** Every step of every thread keeps the invariant, and no counter ever goes below zero. */
  lemma StepKeeps(s: State, step: Step, nBatchSize: nat)
    requires Inv(s) && CanStep(s, step)
    ensures Next(s, step, nBatchSize).Then? && Inv(Next(s, step, nBatchSize).state)
  {
    match step
    case Adds(checks, woken) => AddsKeeps(s, checks, woken, nBatchSize);
    case CallsWait => StartsKeeps(s, step, nBatchSize);
    case Starts(who) => StartsKeeps(s, step, nBatchSize);
    case Enters(who) => EntersKeeps(s, who, nBatchSize);
    case Wakes(who) => WakesKeeps(s, who, nBatchSize);
    case Runs(who) => RunsKeeps(s, who, nBatchSize);
  }

  // Whole runs

  ghost predicate CanRun(s: State, steps: seq<Step>, nBatchSize: nat)
    decreases |steps|
  {
    steps == [] ||
    (CanStep(s, steps[0]) && Next(s, steps[0], nBatchSize).Then? &&
     CanRun(Next(s, steps[0], nBatchSize).state, steps[1..], nBatchSize))
  }

  ghost function After(s: State, steps: seq<Step>, nBatchSize: nat): State
    requires CanRun(s, steps, nBatchSize)
    decreases |steps|
  {
    if steps == [] then s else After(Next(s, steps[0], nBatchSize).state, steps[1..], nBatchSize)
  }

  /** Every check the master handed over in a run, in order. */
  function HandedOver(steps: seq<Step>): seq<Check> {
    if steps == [] then []
    else (if steps[0].Adds? then steps[0].checks else []) + HandedOver(steps[1..])
  }

  /** Every check some Wait has answered for. */
  function Answered(verdicts: seq<(seq<Check>, bool)>): seq<Check> {
    if verdicts == [] then [] else Answered(verdicts[..|verdicts| - 1]) + verdicts[|verdicts| - 1].0
  }

  lemma StartIsInv(workers: nat)
    ensures Inv(Start(workers))
  {
    var s := Start(workers);
    TotalZero(s.threads, InLoop);
    TotalZero(s.threads, Sleeping);
    TotalZero(s.threads, Held);
  }

  lemma {:induction false} RunKeeps(s: State, steps: seq<Step>, nBatchSize: nat)
    requires Inv(s) && CanRun(s, steps, nBatchSize)
    ensures Inv(After(s, steps, nBatchSize))
    decreases |steps|
  {
    hide Inv, Next, CanStep;
    if steps != [] {
      StepKeeps(s, steps[0], nBatchSize);
      RunKeeps(Next(s, steps[0], nBatchSize).state, steps[1..], nBatchSize);
    }
  }

  lemma {:induction false} RunAnswers(s: State, steps: seq<Step>, nBatchSize: nat)
    requires CanRun(s, steps, nBatchSize)
    ensures var e := After(s, steps, nBatchSize);
            Answered(e.verdicts) + e.added == Answered(s.verdicts) + s.added + HandedOver(steps)
    decreases |steps|
  {
    hide Next, Answered, CanStep;
    if steps != [] {
      StepAnswers(s, steps[0], nBatchSize);
      RunAnswers(Next(s, steps[0], nBatchSize).state, steps[1..], nBatchSize);
      assert [steps[0]][1..] == [];
    }
  }

  /** A step neither loses a check nor invents one in the record. */
  lemma StepAnswers(s: State, step: Step, nBatchSize: nat)
    requires CanStep(s, step) && Next(s, step, nBatchSize).Then?
    ensures var n := Next(s, step, nBatchSize).state;
            Answered(n.verdicts) + n.added == Answered(s.verdicts) + s.added + HandedOver([step])
  {
    var n := Next(s, step, nBatchSize).state;
    if |n.verdicts| > |s.verdicts| {
      assert n.verdicts[..|n.verdicts| - 1] == s.verdicts;
    }
  }

  /**
   * Whatever the threads do, in whatever order, each Wait returned true exactly when all the checks
   * it answers for pass; and the Waits together answer for the checks handed over, each once, up to
   * those added since.
   */
  lemma WaitIsRight(workers: nat, steps: seq<Step>, nBatchSize: nat)
    requires CanRun(Start(workers), steps, nBatchSize)
    ensures var e := After(Start(workers), steps, nBatchSize);
            && (forall i | 0 <= i < |e.verdicts| :: e.verdicts[i].1 <==> AllPass(e.verdicts[i].0))
            && Answered(e.verdicts) + e.added == HandedOver(steps)
  {
    hide Next, CanStep;
    StartIsInv(workers);
    RunKeeps(Start(workers), steps, nBatchSize);
    RunAnswers(Start(workers), steps, nBatchSize);
  }

  /** The counter of unfinished checks never underflows: a step that can be taken has a result. */
  lemma NeverUnderflows(workers: nat, steps: seq<Step>, step: Step, nBatchSize: nat)
    requires CanRun(Start(workers), steps, nBatchSize)
    requires CanStep(After(Start(workers), steps, nBatchSize), step)
    ensures CanRun(After(Start(workers), steps, nBatchSize), [step], nBatchSize)
  {
    hide Inv;
    StartIsInv(workers);
    RunKeeps(Start(workers), steps, nBatchSize);
    StepKeeps(After(Start(workers), steps, nBatchSize), step, nBatchSize);
  }

  // Idleness

  lemma {:induction false} BusyThreads(threads: seq<Thread>)
    requires forall i | 0 <= i < |threads| :: WellFormed(threads[i])
    ensures Total(threads, InLoop) - Total(threads, Sleeping) == Total(threads, Busy)
  {
    if threads != [] {
      assert WellFormed(threads[0]);
      BusyThreads(threads[1..]);
    }
  }

  /** The threads in the loop that do not sleep are those that hold a batch. */
  lemma NotIdleIsBusy(s: State)
    requires Inv(s)
    ensures s.sh.nTotal - s.sh.nIdle == Total(s.threads, Busy)
  {
    BusyThreads(s.threads);
  }

  /** The queue is idle exactly when all work is done and nothing added since the last Wait failed. */
  lemma IdleMeans(s: State)
    requires Inv(s)
    ensures Idle(s.sh) <==> s.sh.nTodo == 0 && AllPass(s.added)
  {
    NotIdleIsBusy(s);
    if s.sh.nTodo == 0 {
      NothingHeld(s.threads);
      TotalZero(s.threads, Held);
      TotalZero(s.threads, Busy);
    }
  }

  /** A control object made between a Wait and the next Add finds the queue idle. */
  lemma ControlFindsIdle(workers: nat, steps: seq<Step>, nBatchSize: nat)
    requires CanRun(Start(workers), steps, nBatchSize)
    requires After(Start(workers), steps, nBatchSize).added == []
    ensures Idle(After(Start(workers), steps, nBatchSize).sh)
  {
    StartIsInv(workers);
    RunKeeps(Start(workers), steps, nBatchSize);
    IdleMeans(After(Start(workers), steps, nBatchSize));
  }

  // Progress

  predicate InWait(s: State) {
    s.threads != [] && !s.threads[MASTER].Outside?
  }

  /** A step no scheduler can put off for ever: everything but a spurious wake-up or a call from outside. */
  predicate Due(s: State, step: Step) {
    CanStep(s, step) &&
    match step
    case Adds(_, _) => false
    case CallsWait => false
    case Starts(_) => false
    case Enters(_) => true
    case Wakes(who) => s.threads[who].notified
    case Runs(_) => true
  }

  /** While the master waits there is always a thread that can go on without help: no deadlock. */
  lemma NoDeadlock(s: State) returns (step: Step)
    requires Inv(s) && InWait(s)
    ensures Due(s, step)
  {
    TotalsAreCounts(s);
    match s.threads[MASTER]
    case Back(_, _) => step := Enters(MASTER);
    case Running(_, _) => step := Runs(MASTER);
    case Asleep(notified) =>
      if notified {
        step := Wakes(MASTER);
      } else {
        // the work is with some worker
        TotalZero(s.threads, Held);
        var who :| 0 <= who < |s.threads| && Held(s.threads[who]) != 0;
        step := if s.threads[who].Back? then Enters(who) else Runs(who);
      }
  }

  /** Bounds the steps left until the master returns. */
  function Measure(s: State): nat {
    3 * s.sh.nTodo + 2 * |s.sh.queue| + Total(s.threads, Rank)
  }

  lemma LooksMeasure(s: State, who: nat, nBatchSize: nat)
    requires who < |s.threads| && 0 <= s.sh.nTotal && 0 <= s.sh.nIdle
    requires InWait(Looks(s, who, nBatchSize))
    ensures Measure(Looks(s, who, nBatchSize)) <=
            Measure(s) - Rank(s.threads[who]) - (if s.sh.queue != [] then 1 else 0)
  {
    TotalUpdate(s.threads, who, ToThread(Look(s.sh, who == MASTER, nBatchSize).1), Rank);
    if s.sh.queue != [] {
      BatchFits(s.sh, nBatchSize);
    }
  }

  /** While the master waits no step undoes progress, and every step that is due makes some. */
  lemma StepMeasure(s: State, step: Step, nBatchSize: nat)
    requires Inv(s) && InWait(s) && CanStep(s, step)
    requires Next(s, step, nBatchSize).Then? && InWait(Next(s, step, nBatchSize).state)
    ensures Measure(Next(s, step, nBatchSize).state) <= Measure(s) - (if Due(s, step) then 1 else 0)
  {
    hide Total, Looks;
    match step
    case Starts(who) => TotalUpdate(s.threads, who, Back(0, true), Rank);
    case Enters(who) =>
      var e := Entered(s, who);
      TotalUpdate(s.threads, MASTER, Asleep(true), Rank);
      TotalsAreCounts(s);
      LooksMeasure(e, who, nBatchSize);
    case Wakes(who) =>
      LooksMeasure(s.(sh := Awoken(s.sh)), who, nBatchSize);
    case Runs(who) =>
      var t := Next(s, step, nBatchSize).state.threads[who];
      assert WellFormed(s.threads[who]);
      TotalUpdate(s.threads, who, t, Rank);
  }

  /** The master is inside Wait all along the run. */
  ghost predicate StaysInWait(s: State, steps: seq<Step>, nBatchSize: nat)
    requires CanRun(s, steps, nBatchSize)
    decreases |steps|
  {
    InWait(s) && (steps != [] ==> StaysInWait(Next(s, steps[0], nBatchSize).state, steps[1..], nBatchSize))
  }

  ghost function DueSteps(s: State, steps: seq<Step>, nBatchSize: nat): nat
    requires CanRun(s, steps, nBatchSize)
    decreases |steps|
  {
    if steps == [] then 0
    else (if Due(s, steps[0]) then 1 else 0) + DueSteps(Next(s, steps[0], nBatchSize).state, steps[1..], nBatchSize)
  }

  /**
   * Wait returns: between its call and its return there are at most Measure(s) steps that are due,
   * however many spurious wake-ups and late workers come between. With NoDeadlock there is always
   * one more to take.
   */
  lemma {:induction false} WaitReturns(s: State, steps: seq<Step>, nBatchSize: nat)
    requires Inv(s) && CanRun(s, steps, nBatchSize) && StaysInWait(s, steps, nBatchSize)
    ensures DueSteps(s, steps, nBatchSize) <= Measure(s)
    decreases |steps|
  {
    hide Inv, Next, CanStep, Measure, Due;
    if steps != [] {
      var n := Next(s, steps[0], nBatchSize).state;
      StepKeeps(s, steps[0], nBatchSize);
      StepMeasure(s, steps[0], nBatchSize);
      WaitReturns(n, steps[1..], nBatchSize);
    }
  }
}
