/**
 `CCheckQueue` (src/checkqueue.h) as an object: the fields guarded by the mutex, each thread's
 own variables, and the critical sections and batch executions as methods.
 */
module CheckQueues {
  import opened CheckQueueState
  import opened Helpers

  class CheckQueue {
    const nBatchSize: nat
    var queue: seq<Check>
    var nIdle: int
    var nTotal: int
    var fAllOk: bool
    var nTodo: int
    /** Where each thread is, with its `vChecks`, `nNow` and `fOk`. */
    var threads: map<Tid, Phase>
    ghost var added: seq<Check>

    ghost function View(): State
      reads this
    {
      State(queue, nIdle, nTotal, fAllOk, nTodo, threads, added)
    }

    ghost predicate Valid()
      reads this
    {
      Inv(View())
    }

    constructor (workers: set<Tid>, batchSize: nat)
      ensures Valid() && View() == Initial(workers) && nBatchSize == batchSize
    {
      nBatchSize := batchSize;
      queue, nIdle, nTotal, fAllOk, nTodo, added := [], 0, 0, true, 0, [];
      threads := map t | t in workers + {MASTER} :: Away;
      InitialInv(workers);
    }

    /** The master's `Add`; which waiting worker a single notification reaches is left open. */
    method Push(vChecks: seq<Check>) returns (ghost woken: Option<Tid>)
      requires Valid() && threads[MASTER] == Away
      modifies this
      ensures old(Enabled(View(), Add(vChecks, woken))) && Valid()
      ensures View() == Next(old(View()), Add(vChecks, woken), nBatchSize)
    {
      hide Inv, Counts;
      ghost var was := View();
      CountsOf(was);
      for i := 0 to |vChecks|
        invariant View() == was.(queue := was.queue + vChecks[..i])
      {
        queue := queue + [vChecks[i]];
      }
      nTodo := nTodo + |vChecks|;
      added := added + vChecks;
      woken := None;
      if |vChecks| == 1 {
        var waiting := set w | w in threads && w != MASTER && threads[w] == Waiting;
        if waiting != {} {
          var w :| w in waiting;
          threads := threads[w := Woken];
          woken := Some(w);
        } else {
          assert forall w <- threads :: w != MASTER && threads[w] == Waiting ==> w in waiting;
        }
      } else if |vChecks| > 1 {
        threads := map t | t in threads :: if t != MASTER && threads[t] == Waiting then Woken else threads[t];
      }
      assert View() == Next(was, Add(vChecks, woken), nBatchSize);
      StepInv(was, Add(vChecks, woken), nBatchSize);
    }

    /** One passage of `t` through the critical section of `Loop`: `returned` when `Wait` does. */
    method CriticalSection(t: Tid) returns (returned: bool, fRet: bool)
      requires Valid() && Enabled(View(), Section(t))
      modifies this
      ensures Valid() && View() == Next(old(View()), Section(t), nBatchSize)
      ensures returned == old(WaitReturns(View(), Section(t)))
      ensures returned ==> fRet == AllTrue(old(added))
    {
      hide Inv, Counts, AllTrue, CleanUp, Decide, Total;
      ghost var was := View();
      CountsOf(was);
      CleanedCounts(was, t);
      CleanUpCounts(was, t);
      StepInv(was, Section(t), nBatchSize);
      if WaitReturns(was, Section(t)) {
        ReturnIsRight(was, nBatchSize);
      }
      CleanUpRound(t);
      returned, fRet := DecideRound(t);
    }

    /** The clean-up of the previous round, or the first entry. */
    method CleanUpRound(t: Tid)
      requires MASTER in threads && Enabled(View(), Section(t))
      modifies this`fAllOk, this`nTodo, this`threads, this`nIdle, this`nTotal
      ensures View() == CleanUp(old(View()), t)
    {
      var fMaster := t == MASTER;
      if threads[t].Reporting? {
        fAllOk := fAllOk && threads[t].fOk;
        nTodo := nTodo - threads[t].nNow;
        if nTodo == 0 && !fMaster && threads[MASTER] == Waiting {
          // The last check is done: the master can be told.
          threads := threads[MASTER := Woken];
        }
      } else if threads[t] == Woken {
        nIdle := nIdle - 1;
      } else {
        nTotal := nTotal + 1;
      }
    }

    /** Return, wait, or take a batch. */
    method DecideRound(t: Tid) returns (returned: bool, fRet: bool)
      requires t in threads && nTotal + nIdle >= 0
      modifies this`fAllOk, this`queue, this`threads, this`nIdle, this`nTotal, this`added
      ensures View() == Decide(old(View()), t, nBatchSize)
      ensures returned == old(Returns(View(), t)) && (returned ==> fRet == old(fAllOk))
    {
      returned, fRet := false, false;
      if queue == [] {
        if t == MASTER && nTodo == 0 {
          nTotal := nTotal - 1;
          returned, fRet := true, fAllOk;
          fAllOk := true;
          added := [];
          threads := threads[t := Away];
        } else {
          nIdle := nIdle + 1;
          threads := threads[t := Waiting];
        }
      } else {
        var nNow := BatchSize(|queue|, nTotal, nIdle, nBatchSize);
        TakeBatch(t, nNow);
      }
    }

    /** Moves jobs from the back of the queue to the thread's batch. */
    method TakeBatch(t: Tid, nNow: nat)
      requires 1 <= nNow <= |queue|
      modifies this`queue, this`threads
      ensures queue == old(queue[..|queue| - nNow])
      ensures threads == old(threads)[t := Working(Taken(old(queue), nNow), fAllOk)]
    {
      var vChecks := [];
      for i := 0 to nNow
        invariant queue == old(queue)[..|old(queue)| - i] && threads == old(threads)
        invariant vChecks == Taken(old(queue), i)
      {
        vChecks := vChecks + [queue[|queue| - 1]];
        queue := queue[..|queue| - 1];
      }
      threads := threads[t := Working(vChecks, fAllOk)];
    }

    /** Outside the mutex: checks are run until one fails, the others are skipped. */
    method ExecuteBatch(t: Tid) returns (nRun: nat)
      requires Valid() && Enabled(View(), Execute(t))
      modifies this`threads
      ensures Valid() && View() == Next(old(View()), Execute(t), nBatchSize)
      ensures nRun <= old(|threads[t].batch|)
      ensures nRun < old(|threads[t].batch|) ==> old(!threads[t].fOk) || !AllTrue(old(threads[t].batch)[..nRun])
    {
      hide Inv, Counts;
      ghost var was := View();
      CountsOf(was);
      StepInv(was, Execute(t), nBatchSize);
      var batch, fOk := threads[t].batch, threads[t].fOk;
      nRun := 0;
      for i := 0 to |batch|
        invariant View() == was
        invariant fOk == (threads[t].fOk && AllTrue(batch[..i]))
        invariant nRun <= i && (nRun < i ==> !threads[t].fOk || !AllTrue(batch[..nRun]))
        invariant fOk ==> nRun == i
      {
        assert batch[..i + 1] == batch[..i] + [batch[i]];
        AllTrueJoin(batch[..i], [batch[i]]);
        if fOk {
          fOk := batch[i].ok;
          nRun := nRun + 1;
        }
      }
      assert batch[..|batch|] == batch;
      threads := threads[t := Reporting(|batch|, fOk)];
    }
  }
}
