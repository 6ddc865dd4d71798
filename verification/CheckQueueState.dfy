/**
 The check queue's protocol (src/checkqueue.h) as a state machine: one master and any number
 of workers share a queue under a mutex. Each critical section is one step, and so is the
 execution of a batch outside the mutex.
 */
module CheckQueueState {
  import opened Arithmetic
  import opened Helpers

  type Tid = nat

  const MASTER: Tid := 0

  /** A check and what it will answer. */
  datatype Check = Check(id: nat, ok: bool)

  /** Where a thread is: not in `Loop`, about to enter it, blocked on its condition variable,
      woken but not yet holding the mutex, executing a batch, or done with one. */
  datatype Phase =
    | Away
    | Entering
    | Waiting
    | Woken
    | Working(batch: seq<Check>, fOk: bool)
    | Reporting(nNow: nat, fOk: bool)

  /** `added` is every check added since the last `Wait` returned. */
  datatype State = State(
    queue: seq<Check>, nIdle: int, nTotal: int, fAllOk: bool, nTodo: int,
    phases: map<Tid, Phase>, added: seq<Check>)

  /** A step of the protocol. `Spurious` is a wake-up nobody asked for. */
  datatype Step =
    | Add(checks: seq<Check>, woken: Option<Tid>)
    | CallWait
    | Begin(t: Tid)
    | Section(t: Tid)
    | Execute(t: Tid)
    | Spurious(t: Tid)

  // ---------------------------------------------------------------- the steps

  predicate AllTrue(checks: seq<Check>) {
    forall c <- checks :: c.ok
  }

  function BatchSize(queued: nat, nTotal: int, nIdle: int, nBatchSize: nat): (n: nat)
    requires queued > 0 && nTotal + nIdle >= 0
    ensures 1 <= n <= queued
  {
    var share := queued / (nTotal + nIdle + 1);
    DivAtMost(queued, nTotal + nIdle + 1);
    var capped := if nBatchSize < share then nBatchSize else share;
    if capped > 1 then capped else 1
  }

  /** The most that everyone can have as many of, counting in one who is yet to come, but no more than
      `nBatchSize` and no less than one. */
  lemma FairShare(queued: nat, nTotal: int, nIdle: int, nBatchSize: nat, more: nat)
    requires queued > 0 && nTotal + nIdle >= 0
    ensures var n := BatchSize(queued, nTotal, nIdle, nBatchSize);
      && (n == 1 || (n <= nBatchSize && n * (nTotal + nIdle + 1) <= queued))
      && (more > n ==> more > nBatchSize || more * (nTotal + nIdle + 1) > queued)
  {
    var k := nTotal + nIdle + 1;
    DivParts(queued, k);
    MulStep(k, queued / k, more);
    Exchange(queued / k, k);
    Exchange(more, k);
    var n := BatchSize(queued, nTotal, nIdle, nBatchSize);
    if n > 1 {
      MulMonotone(k, n, queued / k);
      Exchange(n, k);
    }
  }

  /** The last `n` queued checks, last first. */
  function Taken(queue: seq<Check>, n: nat): seq<Check>
    requires n <= |queue|
  {
    seq(n, i requires 0 <= i < n => queue[|queue| - 1 - i])
  }

  /** A batch is executed until a check fails; a batch taken after a failure is not executed. */
  function Outcome(batch: seq<Check>, fOk: bool): bool {
    fOk && AllTrue(batch)
  }

  function WakeAll(phases: map<Tid, Phase>): map<Tid, Phase> {
    map t | t in phases :: if t != MASTER && phases[t] == Waiting then Woken else phases[t]
  }

  /** What the first lines of a critical section do for the previous round. */
  function CleanUp(s: State, t: Tid): State
    requires t in s.phases && MASTER in s.phases
  {
    match s.phases[t]
    case Reporting(n, ok) =>
      var s1 := s.(fAllOk := s.fAllOk && ok, nTodo := s.nTodo - n);
      if s1.nTodo == 0 && t != MASTER && s.phases[MASTER] == Waiting
      then s1.(phases := s.phases[MASTER := Woken]) else s1
    case Woken => s.(nIdle := s.nIdle - 1)
    case _ => s.(nTotal := s.nTotal + 1)
  }

  predicate Returns(s: State, t: Tid) {
    t == MASTER && s.queue == [] && s.nTodo == 0
  }

  /** The rest of the critical section: return, go to sleep, or take a batch. */
  function Decide(s: State, t: Tid, nBatchSize: nat): State
    requires s.queue != [] ==> s.nTotal + s.nIdle >= 0
  {
    if s.queue == [] then
      if Returns(s, t) then s.(nTotal := s.nTotal - 1, fAllOk := true, added := [], phases := s.phases[t := Away])
      else s.(nIdle := s.nIdle + 1, phases := s.phases[t := Waiting])
    else
      var n := BatchSize(|s.queue|, s.nTotal, s.nIdle, nBatchSize);
      s.(queue := s.queue[..|s.queue| - n], phases := s.phases[t := Working(Taken(s.queue, n), s.fAllOk)])
  }

  /** A notified worker, if one is waiting, for one check; all for several. */
  predicate MayWake(s: State, checks: seq<Check>, woken: Option<Tid>) {
    if |checks| == 1 then
      match woken
      case Some(w) => w in s.phases && w != MASTER && s.phases[w] == Waiting
      case None => forall w <- s.phases :: w != MASTER ==> s.phases[w] != Waiting
    else woken == None
  }

  predicate Enabled(s: State, step: Step) {
    MASTER in s.phases &&
    match step
    case Add(checks, woken) => s.phases[MASTER] == Away && MayWake(s, checks, woken)
    case CallWait => s.phases[MASTER] == Away
    case Begin(t) => t in s.phases && t != MASTER && s.phases[t] == Away
    case Section(t) => t in s.phases && (s.phases[t] == Entering || s.phases[t] == Woken || s.phases[t].Reporting?)
    case Execute(t) => t in s.phases && s.phases[t].Working?
    case Spurious(t) => t in s.phases && s.phases[t] == Waiting
  }

  function Next(s: State, step: Step, nBatchSize: nat): State
    requires Enabled(s, step) && Counts(s)
  {
    match step
    case Add(checks, woken) =>
      var phases :=
        if woken.Some? then s.phases[woken.value := Woken]
        else if |checks| > 1 then WakeAll(s.phases) else s.phases;
      s.(queue := s.queue + checks, nTodo := s.nTodo + |checks|, added := s.added + checks, phases := phases)
    case CallWait => s.(phases := s.phases[MASTER := Entering])
    case Begin(t) => s.(phases := s.phases[t := Entering])
    case Section(t) => CleanedCounts(s, t); Decide(CleanUp(s, t), t, nBatchSize)
    case Execute(t) =>
      s.(phases := s.phases[t := Reporting(|s.phases[t].batch|, Outcome(s.phases[t].batch, s.phases[t].fOk))])
    case Spurious(t) => s.(phases := s.phases[t := Woken])
  }

  // ---------------------------------------------------------------- counting threads

  datatype Measure = InFlight | Idle | Inside | Rank

  function Weight(m: Measure, p: Phase): nat {
    match m
    case InFlight => if p.Working? then |p.batch| else if p.Reporting? then p.nNow else 0
    case Idle => if p == Waiting || p == Woken then 1 else 0
    case Inside => if p == Away || p == Entering then 0 else 1
    case Rank => match p
      case Away => 2
      case Entering => 1
      case Waiting => 0
      case Woken => 1
      case Working(_, _) => 3
      case Reporting(_, _) => 2
  }

  ghost function Total(m: Measure, phases: map<Tid, Phase>): nat {
    if phases == map[] then 0 else
      assert exists t :: t in phases by { assert phases.Keys != {}; }
      var t :| t in phases; Weight(m, phases[t]) + Total(m, phases - {t})
  }

  lemma {:induction false} TotalTake(m: Measure, phases: map<Tid, Phase>, t: Tid)
    requires t in phases
    ensures Total(m, phases) == Weight(m, phases[t]) + Total(m, phases - {t})
    decreases |phases|
  {
    var q :| q in phases && Total(m, phases) == Weight(m, phases[q]) + Total(m, phases - {q});
    if q != t {
      assert (phases - {q}).Keys == phases.Keys - {q} && (phases - {t}).Keys == phases.Keys - {t};
      TotalTake(m, phases - {q}, t);
      TotalTake(m, phases - {t}, q);
      assert phases - {q} - {t} == phases - {t} - {q};
    }
  }

  lemma TotalPut(m: Measure, phases: map<Tid, Phase>, t: Tid, p: Phase)
    requires t in phases
    ensures Total(m, phases[t := p]) == Total(m, phases) - Weight(m, phases[t]) + Weight(m, p)
  {
    TotalTake(m, phases, t);
    TotalTake(m, phases[t := p], t);
    assert phases[t := p] - {t} == phases - {t};
  }

  /** Threads whose weights do not change do not change the total. */
  lemma {:induction false} TotalSame(m: Measure, a: map<Tid, Phase>, b: map<Tid, Phase>)
    requires a.Keys == b.Keys && forall t <- a :: Weight(m, a[t]) == Weight(m, b[t])
    ensures Total(m, a) == Total(m, b)
    decreases |a|
  {
    if a != map[] {
      assert a.Keys != {};
      var t :| t in a;
      TotalTake(m, a, t);
      TotalTake(m, b, t);
      assert (a - {t}).Keys == a.Keys - {t} == (b - {t}).Keys;
      TotalSame(m, a - {t}, b - {t});
    } else {
      assert b.Keys == {};
      assert b == map[];
    }
  }

  lemma TotalAtLeast(m: Measure, phases: map<Tid, Phase>, t: Tid)
    requires t in phases
    ensures Total(m, phases) >= Weight(m, phases[t])
  {
    TotalTake(m, phases, t);
  }

  lemma {:induction false} SomeoneHas(m: Measure, phases: map<Tid, Phase>)
    requires Total(m, phases) > 0
    ensures exists t :: t in phases && Weight(m, phases[t]) > 0
    decreases |phases|
  {
    assert phases.Keys != {};
    var t :| t in phases && Total(m, phases) == Weight(m, phases[t]) + Total(m, phases - {t});
    if Weight(m, phases[t]) == 0 {
      assert (phases - {t}).Keys == phases.Keys - {t};
      SomeoneHas(m, phases - {t});
      var u :| u in phases - {t} && Weight(m, (phases - {t})[u]) > 0;
      assert u in phases && Weight(m, phases[u]) > 0;
    }
  }

  // ---------------------------------------------------------------- what is kept

  /** `nTodo` counts queued checks and those in batches; `nIdle` and `nTotal` count threads. */
  ghost predicate Counts(s: State) {
    && MASTER in s.phases
    && s.nTodo == |s.queue| + Total(InFlight, s.phases)
    && s.nIdle == Total(Idle, s.phases)
    && s.nTotal == Total(Inside, s.phases)
  }

  lemma CleanedCounts(s: State, t: Tid)
    requires Counts(s) && Enabled(s, Section(t))
    ensures var c := CleanUp(s, t); c.nTotal + c.nIdle >= 0 && c.nTodo >= 0
  {
    TotalAtLeast(InFlight, s.phases, t);
    TotalAtLeast(Idle, s.phases, t);
  }

  /** After the clean-up `t`'s own previous round no longer counts. */
  ghost predicate Cleaned(c: State, t: Tid) {
    && MASTER in c.phases && t in c.phases
    && c.nTodo == |c.queue| + Total(InFlight, c.phases) - Weight(InFlight, c.phases[t])
    && c.nIdle == Total(Idle, c.phases) - Weight(Idle, c.phases[t])
    && c.nTotal == Total(Inside, c.phases) - Weight(Inside, c.phases[t]) + 1
  }

  lemma CleanUpCounts(s: State, t: Tid)
    requires Counts(s) && Enabled(s, Section(t))
    ensures Cleaned(CleanUp(s, t), t)
  {
    hide Total;
    if s.phases[t].Reporting? && t != MASTER {
      TotalPut(InFlight, s.phases, MASTER, Woken);
      TotalPut(Idle, s.phases, MASTER, Woken);
      TotalPut(Inside, s.phases, MASTER, Woken);
    }
  }

  lemma DecideCounts(c: State, t: Tid, nBatchSize: nat)
    requires Cleaned(c, t) && (c.queue != [] ==> c.nTotal + c.nIdle >= 0)
    ensures Counts(Decide(c, t, nBatchSize))
  {
    hide Total, BatchSize;
    var p := Decide(c, t, nBatchSize).phases[t];
    TotalPut(InFlight, c.phases, t, p);
    TotalPut(Idle, c.phases, t, p);
    TotalPut(Inside, c.phases, t, p);
  }

  lemma WakeAllCounts(phases: map<Tid, Phase>)
    ensures Total(InFlight, WakeAll(phases)) == Total(InFlight, phases)
    ensures Total(Idle, WakeAll(phases)) == Total(Idle, phases)
    ensures Total(Inside, WakeAll(phases)) == Total(Inside, phases)
  {
    TotalSame(InFlight, phases, WakeAll(phases));
    TotalSame(Idle, phases, WakeAll(phases));
    TotalSame(Inside, phases, WakeAll(phases));
  }

  lemma PutCounts(s: State, t: Tid, p: Phase)
    requires Counts(s) && t in s.phases
    requires forall m <- {InFlight, Idle, Inside} :: Weight(m, p) == Weight(m, s.phases[t])
    ensures Counts(s.(phases := s.phases[t := p]))
  {
    assert InFlight in {InFlight, Idle, Inside} && Idle in {InFlight, Idle, Inside} && Inside in {InFlight, Idle, Inside};
    TotalPut(InFlight, s.phases, t, p);
    TotalPut(Idle, s.phases, t, p);
    TotalPut(Inside, s.phases, t, p);
  }

  /** The counters stay right in every step of every thread. */
  lemma CountsKept(s: State, step: Step, nBatchSize: nat)
    requires Counts(s) && Enabled(s, step)
    ensures Counts(Next(s, step, nBatchSize))
  {
    hide Total, Decide, CleanUp, WakeAll, Counts, MayWake;
    match step
    case Add(checks, woken) =>
      AddCounts(s, checks, woken, nBatchSize);
    case Section(t) =>
      CleanUpCounts(s, t);
      CleanedCounts(s, t);
      DecideCounts(CleanUp(s, t), t, nBatchSize);
    case CallWait => PutCounts(s, MASTER, Entering);
    case Begin(t) => PutCounts(s, t, Entering);
    case Execute(t) => PutCounts(s, t, Reporting(|s.phases[t].batch|, Outcome(s.phases[t].batch, s.phases[t].fOk)));
    case Spurious(t) => PutCounts(s, t, Woken);
  }

  lemma AddCounts(s: State, checks: seq<Check>, woken: Option<Tid>, nBatchSize: nat)
    requires Counts(s) && Enabled(s, Add(checks, woken))
    ensures Counts(Next(s, Add(checks, woken), nBatchSize))
  {
    hide Total;
    if woken.Some? {
      PutCounts(s, woken.value, Woken);
    }
    WakeAllCounts(s.phases);
  }

  // ---------------------------------------------------------------- the verdict

  predicate PhaseOk(p: Phase) {
    match p
    case Working(batch, ok) => ok && AllTrue(batch)
    case Reporting(_, ok) => ok
    case _ => true
  }

  ghost predicate PhasesOk(phases: map<Tid, Phase>) {
    forall t <- phases :: PhaseOk(phases[t])
  }

  /** No check has failed or will fail exactly when all those added are true. */
  ghost predicate Verdict(s: State) {
    AllTrue(s.added) <==> s.fAllOk && AllTrue(s.queue) && PhasesOk(s.phases)
  }

  /** No batch is empty. */
  ghost predicate Busy(phases: map<Tid, Phase>) {
    forall t <- phases ::
      && (phases[t].Working? ==> |phases[t].batch| > 0)
      && (phases[t].Reporting? ==> phases[t].nNow > 0)
  }

  lemma NothingInFlight(phases: map<Tid, Phase>)
    requires Busy(phases) && Total(InFlight, phases) == 0
    ensures forall t <- phases :: !phases[t].Working? && !phases[t].Reporting?
    ensures PhasesOk(phases)
  {
    forall t | t in phases ensures !phases[t].Working? && !phases[t].Reporting? {
      TotalAtLeast(InFlight, phases, t);
    }
  }

  lemma AllTrueJoin(a: seq<Check>, b: seq<Check>)
    ensures AllTrue(a + b) <==> AllTrue(a) && AllTrue(b)
  {
    if AllTrue(a + b) {
      assert forall c <- a :: c in a + b;
      assert forall c <- b :: c in a + b;
    }
  }

  lemma TakenTrue(queue: seq<Check>, n: nat)
    requires n <= |queue|
    ensures AllTrue(queue) <==> AllTrue(queue[..|queue| - n]) && AllTrue(Taken(queue, n))
  {
    var rest, tail := queue[..|queue| - n], queue[|queue| - n..];
    assert queue == rest + tail;
    AllTrueJoin(rest, tail);
    SameChecks(tail, Taken(queue, n));
  }

  lemma SameChecks(tail: seq<Check>, batch: seq<Check>)
    requires |tail| == |batch| && forall i | 0 <= i < |tail| :: batch[i] == tail[|tail| - 1 - i]
    ensures AllTrue(tail) <==> AllTrue(batch)
  {
    forall c | c in tail ensures c in batch {
      var i :| 0 <= i < |tail| && tail[i] == c;
      assert batch[|tail| - 1 - i] == c;
    }
    assert forall c <- batch :: c in tail;
  }

  /** One thread moves on; the others' part of the verdict is unchanged. */
  lemma PhasesOkPut(phases: map<Tid, Phase>, t: Tid, p: Phase)
    requires t in phases
    ensures PhasesOk(phases[t := p]) && PhaseOk(phases[t]) <==> PhasesOk(phases) && PhaseOk(p)
  {
    if PhasesOk(phases) && PhaseOk(p) {
      assert PhaseOk(phases[t]);
    } else if PhasesOk(phases[t := p]) && PhaseOk(phases[t]) {
      assert phases[t := p][t] == p;
      forall u | u in phases ensures PhaseOk(phases[u]) {
        assert u != t ==> phases[t := p][u] == phases[u];
      }
    }
  }

  lemma PhasesOkSame(a: map<Tid, Phase>, b: map<Tid, Phase>)
    requires a.Keys == b.Keys && forall t <- a :: PhaseOk(a[t]) == PhaseOk(b[t])
    ensures PhasesOk(a) == PhasesOk(b)
  {
  }

  lemma SectionVerdict(s: State, t: Tid, nBatchSize: nat)
    requires Counts(s) && Enabled(s, Section(t)) && Verdict(s) && Busy(s.phases)
    ensures Verdict(Next(s, Section(t), nBatchSize)) && Busy(Next(s, Section(t), nBatchSize).phases)
    ensures Returns(CleanUp(s, t), t) ==> CleanUp(s, t).fAllOk == AllTrue(s.added)
  {
    hide Total, Counts, Cleaned, PhasesOk, AllTrue, BatchSize, Taken;
    CleanedCounts(s, t);
    CleanUpCounts(s, t);
    var c := CleanUp(s, t);
    CleanUpVerdict(s, t);
    DecideVerdict(c, t, nBatchSize);
  }

  /** Between clean-up and decision: `t` itself has no part in the verdict any more. */
  ghost predicate CleanVerdict(c: State, t: Tid)
    requires t in c.phases
  {
    AllTrue(c.added) <==> c.fAllOk && AllTrue(c.queue) && PhasesOk(c.phases[t := Entering])
  }

  lemma CleanUpVerdict(s: State, t: Tid)
    requires Enabled(s, Section(t)) && Verdict(s) && Busy(s.phases)
    ensures var c := CleanUp(s, t); t in c.phases && CleanVerdict(c, t) && Busy(c.phases)
  {
    hide AllTrue, PhasesOk;
    PhasesOkPut(s.phases, t, Entering);
    var c := CleanUp(s, t);
    if c.phases != s.phases {
      PhasesOkPut(s.phases[t := Entering], MASTER, Woken);
      assert s.phases[t := Entering][MASTER := Woken] == c.phases[t := Entering];
    }
  }

  lemma DecideVerdict(c: State, t: Tid, nBatchSize: nat)
    requires Cleaned(c, t) && (c.queue != [] ==> c.nTotal + c.nIdle >= 0) && CleanVerdict(c, t) && Busy(c.phases)
    ensures Verdict(Decide(c, t, nBatchSize)) && Busy(Decide(c, t, nBatchSize).phases)
    ensures Returns(c, t) ==> c.fAllOk == AllTrue(c.added)
  {
    hide Total, PhasesOk;
    var d := Decide(c, t, nBatchSize);
    assert d.phases == c.phases[t := Entering][t := d.phases[t]];
    PhasesOkPut(c.phases[t := Entering], t, d.phases[t]);
    if c.queue == [] {
      if Returns(c, t) {
        TotalPut(InFlight, c.phases, t, Entering);
        NothingInFlight(c.phases[t := Entering]);
      }
    } else {
      TakenTrue(c.queue, BatchSize(|c.queue|, c.nTotal, c.nIdle, nBatchSize));
    }
  }

  lemma AddVerdict(s: State, checks: seq<Check>, woken: Option<Tid>, nBatchSize: nat)
    requires Counts(s) && Enabled(s, Add(checks, woken)) && Verdict(s) && Busy(s.phases)
    ensures Verdict(Next(s, Add(checks, woken), nBatchSize)) && Busy(Next(s, Add(checks, woken), nBatchSize).phases)
  {
    hide Total, AllTrue, Counts;
    AllTrueJoin(s.added, checks);
    AllTrueJoin(s.queue, checks);
    PhasesOkSame(s.phases, Next(s, Add(checks, woken), nBatchSize).phases);
  }

  lemma PutVerdict(s: State, t: Tid, p: Phase)
    requires t in s.phases && Verdict(s) && Busy(s.phases) && PhaseOk(p) == PhaseOk(s.phases[t])
    requires (p.Working? ==> |p.batch| > 0) && (p.Reporting? ==> p.nNow > 0)
    ensures var after := s.(phases := s.phases[t := p]); Verdict(after) && Busy(after.phases)
  {
    hide AllTrue;
    PhasesOkSame(s.phases, s.phases[t := p]);
  }

  lemma VerdictKept(s: State, step: Step, nBatchSize: nat)
    requires Counts(s) && Enabled(s, step) && Verdict(s) && Busy(s.phases)
    ensures Verdict(Next(s, step, nBatchSize)) && Busy(Next(s, step, nBatchSize).phases)
  {
    hide Total, Decide, CleanUp, WakeAll, Counts, MayWake, AllTrue, PhasesOk, Verdict;
    match step
    case Add(checks, woken) => AddVerdict(s, checks, woken, nBatchSize);
    case Section(t) => SectionVerdict(s, t, nBatchSize);
    case CallWait => PutVerdict(s, MASTER, Entering);
    case Begin(t) => PutVerdict(s, t, Entering);
    case Execute(t) => PutVerdict(s, t, Reporting(|s.phases[t].batch|, Outcome(s.phases[t].batch, s.phases[t].fOk)));
    case Spurious(t) => PutVerdict(s, t, Woken);
  }

  // ---------------------------------------------------------------- no lost wake-up

  predicate Active(p: Phase) {
    p == Entering || p == Woken || p.Working? || p.Reporting?
  }

  /** The master sleeps only while others have work that is not queued. */
  predicate MasterSleeps(s: State) {
    MASTER in s.phases && (s.phases[MASTER] == Waiting ==> s.queue == [] && s.nTodo > 0)
  }

  ghost predicate SomeWorker(phases: map<Tid, Phase>, active: bool) {
    exists w :: w in phases && w != MASTER && if active then Active(phases[w]) else phases[w] == Waiting
  }

  /** While anything is queued, workers do not all sleep. */
  ghost predicate WorkersAwake(s: State) {
    s.queue != [] && SomeWorker(s.phases, false) ==> SomeWorker(s.phases, true)
  }

  lemma AwakeKept(s: State, step: Step, nBatchSize: nat)
    requires Counts(s) && Enabled(s, step) && Busy(s.phases) && MasterSleeps(s) && WorkersAwake(s)
    ensures MasterSleeps(Next(s, step, nBatchSize)) && WorkersAwake(Next(s, step, nBatchSize))
  {
    hide Total, Counts, WorkersAwake, BatchSize;
    match step
    case Add(checks, woken) => AddWakes(s, checks, woken, nBatchSize);
    case Section(t) => SectionWakes(s, t, nBatchSize);
    case CallWait => WorkerMoves(s, MASTER, Entering);
    case Begin(t) => WorkerMoves(s, t, Entering);
    case Execute(t) => WorkerMoves(s, t, Reporting(|s.phases[t].batch|, Outcome(s.phases[t].batch, s.phases[t].fOk)));
    case Spurious(t) => WorkerMoves(s, t, Woken);
  }

  lemma WorkerMoves(s: State, t: Tid, p: Phase)
    requires t in s.phases && WorkersAwake(s) && (t != MASTER ==> Active(p))
    ensures WorkersAwake(s.(phases := s.phases[t := p]))
  {
    var after := s.phases[t := p];
    if s.queue != [] && SomeWorker(after, false) {
      var w :| w in after && w != MASTER && after[w] == Waiting;
      assert w in s.phases && w != MASTER && s.phases[w] == Waiting;
      var v :| v in s.phases && v != MASTER && Active(s.phases[v]);
      assert v in after && Active(after[v]);
    }
  }

  lemma AddWakes(s: State, checks: seq<Check>, woken: Option<Tid>, nBatchSize: nat)
    requires Counts(s) && Enabled(s, Add(checks, woken)) && WorkersAwake(s)
    ensures WorkersAwake(Next(s, Add(checks, woken), nBatchSize))
  {
    hide Total, Counts;
    var after := Next(s, Add(checks, woken), nBatchSize).phases;
    if woken.Some? {
      assert woken.value in after && Active(after[woken.value]);
    } else if |checks| == 0 {
      assert s.queue + checks == s.queue;
    } else {
      assert forall w | w in after && w != MASTER :: after[w] != Waiting;
    }
  }

  lemma SectionWakes(s: State, t: Tid, nBatchSize: nat)
    requires Counts(s) && Enabled(s, Section(t)) && MasterSleeps(s) && WorkersAwake(s)
    ensures MasterSleeps(Next(s, Section(t), nBatchSize)) && WorkersAwake(Next(s, Section(t), nBatchSize))
  {
    hide Total, Counts, Cleaned, BatchSize, Taken, SomeWorker;
    CleanedCounts(s, t);
    CleanUpCounts(s, t);
    var c := CleanUp(s, t);
    var d := Decide(c, t, nBatchSize);
    if d.queue != [] {
      assert s.queue != [];
      if t == MASTER {
        assert WorkersAwake(s);
        SameWorkers(s.phases, d.phases);
      } else {
        IsWorker(d.phases, t);
      }
    }
  }

  lemma IsWorker(phases: map<Tid, Phase>, t: Tid)
    requires t in phases && t != MASTER && Active(phases[t])
    ensures SomeWorker(phases, true)
  {
  }

  lemma SameWorkers(a: map<Tid, Phase>, b: map<Tid, Phase>)
    requires a.Keys == b.Keys && forall t <- a | t != MASTER :: a[t] == b[t]
    ensures SomeWorker(a, true) == SomeWorker(b, true) && SomeWorker(a, false) == SomeWorker(b, false)
  {
    forall active: bool ensures SomeWorker(a, active) == SomeWorker(b, active) {
      if SomeWorker(a, active) {
        var w :| w in a && w != MASTER && if active then Active(a[w]) else a[w] == Waiting;
        assert w in b && b[w] == a[w];
      }
      if SomeWorker(b, active) {
        var w :| w in b && w != MASTER && if active then Active(b[w]) else b[w] == Waiting;
        assert w in a && a[w] == b[w];
      }
    }
  }

  // ---------------------------------------------------------------- whole runs

  ghost predicate Inv(s: State) {
    Counts(s) && Verdict(s) && Busy(s.phases) && MasterSleeps(s) && WorkersAwake(s)
  }

  function Initial(workers: set<Tid>): State {
    State([], 0, 0, true, 0, map t | t in workers + {MASTER} :: Away, [])
  }

  lemma InitialInv(workers: set<Tid>)
    ensures Inv(Initial(workers))
  {
    var s := Initial(workers);
    NoWeight(InFlight, s.phases);
    NoWeight(Idle, s.phases);
    NoWeight(Inside, s.phases);
  }

  lemma NoWeight(m: Measure, phases: map<Tid, Phase>)
    requires forall t <- phases :: Weight(m, phases[t]) == 0
    ensures Total(m, phases) == 0
  {
    if Total(m, phases) > 0 {
      SomeoneHas(m, phases);
    }
  }

  lemma StepInv(s: State, step: Step, nBatchSize: nat)
    requires Inv(s) && Enabled(s, step)
    ensures Inv(Next(s, step, nBatchSize))
  {
    hide Counts, Verdict, Busy, MasterSleeps, WorkersAwake, Next, Enabled;
    CountsKept(s, step, nBatchSize);
    VerdictKept(s, step, nBatchSize);
    AwakeKept(s, step, nBatchSize);
  }

  lemma CountsOf(s: State)
    requires Inv(s)
    ensures Counts(s) && MASTER in s.phases
  {
  }

  /** `steps` is an interleaving that can happen from `s`. */
  ghost predicate Possible(s: State, steps: seq<Step>, nBatchSize: nat)
    requires Inv(s)
    decreases |steps|
  {
    if steps == [] then true
    else if !Enabled(s, steps[0]) then false
    else
      StepInv(s, steps[0], nBatchSize);
      Possible(Next(s, steps[0], nBatchSize), steps[1..], nBatchSize)
  }

  ghost function After(s: State, steps: seq<Step>, nBatchSize: nat): (r: State)
    requires Inv(s) && Possible(s, steps, nBatchSize)
    ensures Inv(r)
    decreases |steps|
  {
    if steps == [] then s else
      StepInv(s, steps[0], nBatchSize);
      After(Next(s, steps[0], nBatchSize), steps[1..], nBatchSize)
  }

  ghost predicate Reaches(workers: set<Tid>, steps: seq<Step>, nBatchSize: nat, s: State) {
    InitialInv(workers);
    Possible(Initial(workers), steps, nBatchSize) && s == After(Initial(workers), steps, nBatchSize)
  }

  /** The master's critical section is the one in which `Wait` returns. */
  predicate WaitReturns(s: State, step: Step) {
    Enabled(s, step) && step == Section(MASTER) && Returns(CleanUp(s, MASTER), MASTER)
  }

  /** After any interleaving, if `Wait` returns it returns whether every check added since it
      last returned is true; nothing is in flight then, and the status starts afresh. */
  lemma WaitIsRight(workers: set<Tid>, steps: seq<Step>, nBatchSize: nat, s: State)
    requires Reaches(workers, steps, nBatchSize, s) && WaitReturns(s, Section(MASTER))
    ensures Inv(s)
    ensures var after := Next(s, Section(MASTER), nBatchSize);
      && CleanUp(s, MASTER).fAllOk == AllTrue(s.added)
      && (forall t <- after.phases :: !after.phases[t].Working? && !after.phases[t].Reporting?)
      && after.fAllOk && after.nTodo == 0 && after.queue == [] && after.added == []
  {
    hide Total, Possible, After, AllTrue;
    ReturnIsRight(s, nBatchSize);
  }

  lemma ReturnIsRight(s: State, nBatchSize: nat)
    requires Inv(s) && WaitReturns(s, Section(MASTER))
    ensures var after := Next(s, Section(MASTER), nBatchSize);
      && CleanUp(s, MASTER).fAllOk == AllTrue(s.added)
      && (forall t <- after.phases :: !after.phases[t].Working? && !after.phases[t].Reporting?)
      && after.fAllOk && after.nTodo == 0 && after.queue == [] && after.added == []
  {
    hide Total, AllTrue, PhasesOk, MasterSleeps, WorkersAwake;
    SectionVerdict(s, MASTER, nBatchSize);
    CountsKept(s, Section(MASTER), nBatchSize);
    CleanedCounts(s, MASTER);
    NothingInFlight(Next(s, Section(MASTER), nBatchSize).phases);
  }

  // ---------------------------------------------------------------- no stuck state

  /** While `Wait` has not returned, some thread can go on without any further wake-up. */
  lemma NotStuck(s: State)
    requires Inv(s) && s.phases[MASTER] != Away
    ensures exists t :: t in s.phases && (Enabled(s, Section(t)) || Enabled(s, Execute(t)))
  {
    if s.phases[MASTER] == Waiting {
      SomeoneHas(InFlight, s.phases);
      var t :| t in s.phases && Weight(InFlight, s.phases[t]) > 0;
      assert Enabled(s, Section(t)) || Enabled(s, Execute(t));
    } else {
      assert Enabled(s, Section(MASTER)) || Enabled(s, Execute(MASTER));
    }
  }

  /** Queued checks are not left lying while there is a worker inside the loop. */
  lemma WorkGoesOn(s: State, w: Tid)
    requires Inv(s) && s.queue != [] && w in s.phases && w != MASTER && s.phases[w] != Away
    ensures exists t :: t in s.phases && t != MASTER && (Enabled(s, Section(t)) || Enabled(s, Execute(t)))
  {
    if s.phases[w] == Waiting {
      assert SomeWorker(s.phases, false);
      var t :| t in s.phases && t != MASTER && Active(s.phases[t]);
      assert Enabled(s, Section(t)) || Enabled(s, Execute(t));
    } else {
      assert Enabled(s, Section(w)) || Enabled(s, Execute(w));
    }
  }

  ghost function Potential(s: State): nat {
    3 * |s.queue| + Total(Rank, s.phases)
  }

  predicate IsProgress(s: State, step: Step) {
    (step.Begin? || step.Section? || step.Execute?) && !WaitReturns(s, step)
  }

  lemma PotentialFalls(s: State, step: Step, nBatchSize: nat)
    requires Inv(s) && Enabled(s, step) && IsProgress(s, step)
    ensures Potential(Next(s, step, nBatchSize)) < Potential(s)
  {
    hide Total, Verdict, WorkersAwake, MasterSleeps, AllTrue, BatchSize, Taken;
    match step
    case Begin(t) => TotalPut(Rank, s.phases, t, Entering);
    case Execute(t) => TotalPut(Rank, s.phases, t, Reporting(|s.phases[t].batch|, Outcome(s.phases[t].batch, s.phases[t].fOk)));
    case Section(t) =>
      CleanedCounts(s, t);
      var c := CleanUp(s, t);
      TotalPut(Rank, s.phases, MASTER, Woken);
      TotalPut(Rank, c.phases, t, Decide(c, t, nBatchSize).phases[t]);
  }

  /** A run without additions, spurious wake-ups or a return of `Wait`. */
  ghost predicate Quiet(s: State, steps: seq<Step>, nBatchSize: nat)
    requires Inv(s)
    decreases |steps|
  {
    if steps == [] then true
    else if !Enabled(s, steps[0]) || !IsProgress(s, steps[0]) then false
    else
      StepInv(s, steps[0], nBatchSize);
      Quiet(Next(s, steps[0], nBatchSize), steps[1..], nBatchSize)
  }

  /** Such a run is finite, with a bound known beforehand. */
  lemma {:induction false} QuietIsShort(s: State, steps: seq<Step>, nBatchSize: nat)
    requires Inv(s) && Quiet(s, steps, nBatchSize)
    ensures |steps| <= Potential(s)
    decreases |steps|
  {
    if steps != [] {
      StepInv(s, steps[0], nBatchSize);
      PotentialFalls(s, steps[0], nBatchSize);
      QuietIsShort(Next(s, steps[0], nBatchSize), steps[1..], nBatchSize);
    }
  }

  /** While `Wait` does not return the master stays in it. */
  lemma MasterStays(s: State, step: Step, nBatchSize: nat)
    requires Inv(s) && Enabled(s, step) && IsProgress(s, step) && s.phases[MASTER] != Away
    ensures Next(s, step, nBatchSize).phases[MASTER] != Away
  {
    hide Total, Verdict, WorkersAwake, MasterSleeps, AllTrue, BatchSize, Taken;
    if step.Section? {
      CleanedCounts(s, step.t);
    }
  }

  lemma {:induction false} QuietStays(s: State, steps: seq<Step>, nBatchSize: nat)
    requires Inv(s) && Quiet(s, steps, nBatchSize) && s.phases[MASTER] != Away
    ensures Possible(s, steps, nBatchSize) && After(s, steps, nBatchSize).phases[MASTER] != Away
    decreases |steps|
  {
    hide Enabled, IsProgress, Next;
    if steps != [] {
      StepInv(s, steps[0], nBatchSize);
      MasterStays(s, steps[0], nBatchSize);
      QuietStays(Next(s, steps[0], nBatchSize), steps[1..], nBatchSize);
    }
  }

  /** Until `Wait` returns some thread can make progress. */
  lemma CanProgress(s: State) returns (step: Step)
    requires Inv(s) && s.phases[MASTER] != Away && !WaitReturns(s, Section(MASTER))
    ensures Enabled(s, step) && IsProgress(s, step)
  {
    hide Inv, Enabled;
    NotStuck(s);
    var t :| t in s.phases && (Enabled(s, Section(t)) || Enabled(s, Execute(t)));
    step := if Enabled(s, Section(t)) then Section(t) else Execute(t);
  }

  /** So every `Wait` comes to its end: a quiet run, none of which is longer than the bound, ends
      where it returns as soon as it cannot go on. */
  lemma WaitEnds(s: State, steps: seq<Step>, nBatchSize: nat)
    requires Inv(s) && s.phases[MASTER] != Away && Quiet(s, steps, nBatchSize)
    ensures |steps| <= Potential(s) && Possible(s, steps, nBatchSize)
    ensures var e := After(s, steps, nBatchSize);
      (forall step :: !(Enabled(e, step) && IsProgress(e, step))) ==> WaitReturns(e, Section(MASTER))
  {
    hide Potential, Enabled, IsProgress, WaitReturns, Quiet, Possible;
    QuietIsShort(s, steps, nBatchSize);
    QuietStays(s, steps, nBatchSize);
    var e := After(s, steps, nBatchSize);
    if !WaitReturns(e, Section(MASTER)) {
      var step := CanProgress(e);
    }
  }

  /** And from every state in which the master waits there is such a run. */
  lemma {:induction false} WaitCanEnd(s: State, nBatchSize: nat) returns (steps: seq<Step>)
    requires Inv(s) && s.phases[MASTER] != Away
    ensures Quiet(s, steps, nBatchSize) && Possible(s, steps, nBatchSize)
    ensures WaitReturns(After(s, steps, nBatchSize), Section(MASTER))
    decreases Potential(s)
  {
    hide Potential, Enabled, IsProgress, WaitReturns, Next, Inv;
    steps := [];
    if !WaitReturns(s, Section(MASTER)) {
      var step := CanProgress(s);
      CountsOf(s);
      StepInv(s, step, nBatchSize);
      MasterStays(s, step, nBatchSize);
      PotentialFalls(s, step, nBatchSize);
      var rest := WaitCanEnd(Next(s, step, nBatchSize), nBatchSize);
      steps := [step] + rest;
      assert steps[1..] == rest;
    }
  }
}
