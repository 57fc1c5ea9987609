/** The shared fields of the verification queue, and what each critical section does to them. */
module CheckQueue {
  import opened Arithmetic

  /** A verification, known by the answer its evaluation gives. */
  datatype Check = Check(passes: bool)

  predicate AllPass(checks: seq<Check>) {
    forall i | 0 <= i < |checks| :: checks[i].passes
  }

  datatype Shared = Shared(queue: seq<Check>, nIdle: int, nTotal: int, fAllOk: bool, nTodo: nat)

  /** What a thread does when it leaves the critical section. */
  datatype Outcome =
    | Work(batch: seq<Check>, fOk: bool)
    | Sleep
    | Leave(fRet: bool)

  /** How many checks a thread takes at once. */
  function BatchSize(sh: Shared, nBatchSize: nat): int
    requires sh.nTotal + sh.nIdle + 1 > 0
  {
    Max(1, Min(nBatchSize, |sh.queue| / (sh.nTotal + sh.nIdle + 1)))
  }

  /** A batch is never empty and never more than there is. */
  lemma BatchFits(sh: Shared, nBatchSize: nat)
    requires sh.nTotal + sh.nIdle + 1 > 0 && sh.queue != []
    ensures 1 <= BatchSize(sh, nBatchSize) <= |sh.queue|
  {
    var d := sh.nTotal + sh.nIdle + 1;
    assert |sh.queue| / d <= |sh.queue| by {
      DivideBy(|sh.queue|, d);
    }
  }

  lemma DivideBy(a: nat, d: int)
    requires d > 0
    ensures 0 <= a / d <= a
  {
    var q, r := a / d, a % d;
    assert a == d * q + r;
    MulMonotone(q, 1, d);
  }

  function Reverse(s: seq<Check>): (r: seq<Check>)
    ensures |r| == |s| && forall i | 0 <= i < |s| :: r[i] == s[|s| - 1 - i]
  {
    if s == [] then [] else Reverse(s[1..]) + [s[0]]
  }

  /** Coming back with a finished batch, or for the first time. */
  function Returned(sh: Shared, nNow: nat, fOk: bool): Shared
    requires nNow <= sh.nTodo
  {
    if nNow > 0 then sh.(fAllOk := sh.fAllOk && fOk, nTodo := sh.nTodo - nNow)
    else sh.(nTotal := sh.nTotal + 1)
  }

  /** One look at the queue: take work, go to sleep, or leave. */
  function Look(sh: Shared, fMaster: bool, nBatchSize: nat): (r: (Shared, Outcome))
    requires sh.nTotal + sh.nIdle + 1 > 0
  {
    if sh.queue != [] then
      BatchFits(sh, nBatchSize);
      var n := |sh.queue| - BatchSize(sh, nBatchSize);
      (sh.(queue := sh.queue[..n]), Work(Reverse(sh.queue[n..]), sh.fAllOk))
    else if fMaster && sh.nTodo == 0 then
      (sh.(nTotal := sh.nTotal - 1, fAllOk := true), Leave(sh.fAllOk))
    else
      (sh.(nIdle := sh.nIdle + 1), Sleep)
  }

  datatype Notify = NotifyNone | NotifyOne | NotifyAll

  /** A queue nobody has used. */
  const UNUSED := Shared([], 0, 0, true, 0)

  /** Waking up, just before looking again. */
  function Awoken(sh: Shared): Shared {
    sh.(nIdle := sh.nIdle - 1)
  }

  /** Checks handed over, and which workers are told. */
  function HandedTo(sh: Shared, checks: seq<Check>): Shared {
    sh.(queue := sh.queue + checks, nTodo := sh.nTodo + |checks|)
  }

  function Told(nChecks: nat): Notify {
    if nChecks == 0 then NotifyNone else if nChecks == 1 then NotifyOne else NotifyAll
  }

  /** Whether a batch passes; nothing is evaluated once something failed. */
  predicate Evaluated(checks: seq<Check>, fOk: bool) {
    fOk && AllPass(checks)
  }

  predicate Idle(sh: Shared) {
    sh.nTotal == sh.nIdle && sh.nTodo == 0 && sh.fAllOk
  }

  class Queue {
    const nBatchSize: nat
    var queue: seq<Check>
    var nIdle: int
    var nTotal: int
    var fAllOk: bool
    var nTodo: nat

    ghost function Fields(): Shared
      reads this
    {
      Shared(queue, nIdle, nTotal, fAllOk, nTodo)
    }

    constructor (nBatchSize: nat)
      ensures this.nBatchSize == nBatchSize && Fields() == UNUSED && Idle(Fields())
    {
      this.nBatchSize := nBatchSize;
      queue := [];
      nIdle, nTotal, fAllOk, nTodo := 0, 0, true, 0;
    }

    /** The start of a critical section of the loop. The last worker to finish wakes the master. */
    method ComeBack(fMaster: bool, nNow: nat, fOk: bool) returns (wakeMaster: bool)
      requires nNow <= nTodo
      modifies this
      ensures Fields() == Returned(old(Fields()), nNow, fOk)
      ensures wakeMaster <==> nNow > 0 && nTodo == 0 && !fMaster
    {
      wakeMaster := false;
      if nNow > 0 {
        fAllOk := fAllOk && fOk;
        nTodo := nTodo - nNow;
        if nTodo == 0 && !fMaster {
          wakeMaster := true;
        }
      } else {
        nTotal := nTotal + 1;
      }
    }

    /** The rest of it, up to going to sleep, leaving, or taking a batch. */
    method LookForWork(fMaster: bool) returns (outcome: Outcome)
      requires nTotal + nIdle + 1 > 0
      modifies this
      ensures (Fields(), outcome) == Look(old(Fields()), fMaster, nBatchSize)
    {
      if queue == [] {
        if fMaster && nTodo == 0 {
          nTotal := nTotal - 1;
          var fRet := fAllOk;
          fAllOk := true;
          return Leave(fRet);
        }
        nIdle := nIdle + 1;
        return Sleep;
      }
      ghost var sh := Fields();
      BatchFits(sh, nBatchSize);
      var nNow := Max(1, Min(nBatchSize, |queue| / (nTotal + nIdle + 1)));
      var vChecks := TakeBack(nNow);
      return Work(vChecks, fAllOk);
    }

    /** The last checks of the queue, one after another. */
    method TakeBack(nNow: nat) returns (vChecks: seq<Check>)
      requires nNow <= |queue|
      modifies this`queue
      ensures queue == old(queue)[..|old(queue)| - nNow]
      ensures vChecks == Reverse(old(queue)[|old(queue)| - nNow..])
    {
      hide Reverse;
      ghost var was := queue;
      vChecks := [];
      assert was[|was|..] == [];
      for i := 0 to nNow
        invariant queue == was[..|was| - i]
        invariant vChecks == Reverse(was[|was| - i..])
      {
        ReverseMore(was, |was| - i);
        vChecks := vChecks + [queue[|queue| - 1]];
        queue := queue[..|queue| - 1];
      }
    }

    /** Waking up, before looking again. */
    method WakeUp()
      modifies this`nIdle
      ensures Fields() == Awoken(old(Fields()))
    {
      nIdle := nIdle - 1;
    }

    /** Evaluates a batch outside the lock, stopping at the first failure. */
    method RunBatch(vChecks: seq<Check>, fOk: bool) returns (r: bool)
      ensures r <==> Evaluated(vChecks, fOk)
    {
      r := fOk;
      for i := 0 to |vChecks|
        invariant r <==> fOk && AllPass(vChecks[..i])
      {
        assert vChecks[..i + 1] == vChecks[..i] + [vChecks[i]];
        if r {
          r := vChecks[i].passes;
        }
      }
      assert vChecks[..|vChecks|] == vChecks;
    }

    method Add(vChecks: seq<Check>) returns (notify: Notify)
      modifies this`queue, this`nTodo
      ensures Fields() == HandedTo(old(Fields()), vChecks)
      ensures notify == Told(|vChecks|)
    {
      for i := 0 to |vChecks|
        invariant queue == old(queue) + vChecks[..i] && nTodo == old(nTodo)
      {
        assert vChecks[..i + 1] == vChecks[..i] + [vChecks[i]];
        queue := queue + [vChecks[i]];
      }
      assert vChecks[..|vChecks|] == vChecks;
      nTodo := nTodo + |vChecks|;
      notify := NotifyNone;
      if |vChecks| == 1 {
        notify := NotifyOne;
      } else if |vChecks| > 1 {
        notify := NotifyAll;
      }
    }

    method IsIdle() returns (r: bool)
      ensures r <==> Idle(Fields())
    {
      r := nTotal == nIdle && nTodo == 0 && fAllOk;
    }
  }

  lemma ReverseMore(s: seq<Check>, n: int)
    requires 0 < n <= |s|
    ensures Reverse(s[n - 1..]) == Reverse(s[n..]) + [s[n - 1]]
  {
    assert s[n - 1..][1..] == s[n..];
  }
}
