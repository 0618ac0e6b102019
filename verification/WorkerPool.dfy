/**
 The worker pool of src/mesh/core/worker_pool.c: submitters, workers, and the threads that
 wait in `pool_wait_completion` for the counter of pending work to reach zero.

 A submitter holds the queue's mutex from its push until it has counted the item and
 signalled a worker, so one flag tells whether a push is not counted yet. Workers look at
 the queue, and block, under the same mutex; an item is counted as done, and a waiter woken,
 under the other one. A signal wakes one blocked thread, if there is one; the thread looks
 again when it gets its mutex.
 */
module WorkerPool {
  import opened Prelude
  import opened Queue

  datatype Worker<T> =
    | Looking        // about to look at the queue
    | Blocked        // on work_available_signal
    | Busy(item: T)

  /** A thread that may call pool_wait_completion. */
  datatype Waiter =
    | Outside
    | Asleep         // on all_work_done_signal
    | Woken          // signalled, and about to test the counter again

  datatype Pool<T> = Pool(
    queue: seq<T>,
    pending: int,                // pending_work_count
    uncounted: bool,             // a submitter has pushed and not yet counted
    workers: seq<Worker<T>>,
    waiters: seq<Waiter>,
    coalesced: nat)              // history: submits that replaced a waiting item

  datatype Step<T> =
    | Submit(item: T)
    | CountSubmit(woken: Option<nat>)
    | Take(w: nat)
    | Block(w: nat)
    | Finish(w: nat, woken: Option<nat>)
    | Wait(t: nat)
    | Retest(t: nat)

  function Start<T>(workers: nat, waiters: nat): Pool<T> {
    Pool([], 0, false, seq(workers, _ => Looking), seq(waiters, _ => Outside), 0)
  }

  /** How many waiters are in this state. */
  function Number(waiters: seq<Waiter>, x: Waiter): nat {
    if waiters == [] then 0 else (if waiters[0] == x then 1 else 0) + Number(waiters[1..], x)
  }

  function BusyOf<T>(workers: seq<Worker<T>>): nat {
    if workers == [] then 0 else (if workers[0].Busy? then 1 else 0) + BusyOf(workers[1..])
  }

  /** A signal wakes one of the threads that sleep, or nobody if none does. */
  predicate Signals<W(==)>(threads: seq<W>, asleep: W, woken: Option<nat>) {
    match woken
    case None => asleep !in threads
    case Some(t) => t < |threads| && threads[t] == asleep
  }

  predicate CanStep<T(==)>(p: Pool<T>, step: Step<T>) {
    match step
    case Submit(_) => !p.uncounted
    case CountSubmit(woken) => p.uncounted && Signals(p.workers, Blocked, woken)
    case Take(w) => !p.uncounted && w < |p.workers| && p.workers[w].Looking? && p.queue != []
    case Block(w) => !p.uncounted && w < |p.workers| && p.workers[w].Looking? && p.queue == []
    case Finish(w, woken) =>
      && w < |p.workers| && p.workers[w].Busy?
      && if p.pending == 1 then Signals(p.waiters, Asleep, woken) else woken.None?
    case Wait(t) => t < |p.waiters| && p.waiters[t] == Outside
    case Retest(t) => t < |p.waiters| && p.waiters[t] == Woken
  }

  /** The test of the counter: what pool_is_idle says, and when a wait returns. */
  predicate IsIdle<T>(p: Pool<T>) { p.pending <= 0 }

  function Do<T>(eq: (T, T) -> bool, p: Pool<T>, step: Step<T>): Pool<T>
    requires CanStep(p, step)
  {
    match step
    case Submit(x) =>
      p.(queue := Push(eq, p.queue, x), uncounted := true,
         coalesced := p.coalesced + if Waiting(eq, p.queue, x) then 1 else 0)
    case CountSubmit(woken) =>
      p.(pending := p.pending + 1, uncounted := false,
         workers := if woken.Some? then p.workers[woken.value := Looking] else p.workers)
    case Take(w) => p.(queue := Pop(p.queue), workers := p.workers[w := Busy(p.queue[0])])
    case Block(w) => p.(workers := p.workers[w := Blocked])
    case Finish(w, woken) =>
      p.(pending := p.pending - 1, workers := p.workers[w := Looking],
         waiters := if woken.Some? then p.waiters[woken.value := Woken] else p.waiters)
    case Wait(t) => p.(waiters := p.waiters[t := if IsIdle(p) then Outside else Asleep])
    case Retest(t) => p.(waiters := p.waiters[t := if IsIdle(p) then Outside else Asleep])
  }

  /** A run of the pool from its start. */
  ghost predicate IsRun<T(!new)>(eq: (T, T) -> bool, run: seq<Pool<T>>) {
    && |run| > 0
    && run[0] == Start(|run[0].workers|, |run[0].waiters|)
    && forall i: nat :: i + 1 < |run| ==> Next(eq, run[i], run[i + 1])
  }

  ghost predicate Next<T(!new)>(eq: (T, T) -> bool, p: Pool<T>, p': Pool<T>) {
    exists step :: CanStep(p, step) && p' == Do(eq, p, step)
  }

  /** All submitted work is done and every submit has returned. */
  predicate AtRest<T>(p: Pool<T>) {
    p.queue == [] && !p.uncounted && BusyOf(p.workers) == 0
  }

  // -------------------------------------------------------------- invariant

  lemma {:induction false} BusyUpdate<T>(workers: seq<Worker<T>>, w: nat, x: Worker<T>)
    requires w < |workers|
    ensures BusyOf(workers[w := x]) ==
            BusyOf(workers) - (if workers[w].Busy? then 1 else 0) + if x.Busy? then 1 else 0
  {
    if w == 0 {
      assert workers[0 := x][1..] == workers[1..];
    } else {
      assert workers[w := x][1..] == workers[1..][w - 1 := x];
      BusyUpdate(workers[1..], w - 1, x);
    }
  }

  lemma {:induction false} NumberUpdate(waiters: seq<Waiter>, t: nat, x: Waiter, y: Waiter)
    requires t < |waiters|
    ensures Number(waiters[t := x], y) ==
            Number(waiters, y) - (if waiters[t] == y then 1 else 0) + if x == y then 1 else 0
  {
    if t == 0 {
      assert waiters[0 := x][1..] == waiters[1..];
    } else {
      assert waiters[t := x][1..] == waiters[1..][t - 1 := x];
      NumberUpdate(waiters[1..], t - 1, x, y);
    }
  }

  lemma {:induction false} NobodyBusy<T>(workers: seq<Worker<T>>)
    ensures BusyOf(workers) == 0 <==> forall w :: 0 <= w < |workers| ==> !workers[w].Busy?
  {
    if workers != [] {
      NobodyBusy(workers[1..]);
      assert forall w :: 1 <= w < |workers| ==> workers[w] == workers[1..][w - 1];
    }
  }

  lemma {:induction false} NumberIsZero(waiters: seq<Waiter>, x: Waiter)
    ensures Number(waiters, x) == 0 <==> x !in waiters
  {
    if waiters != [] {
      NumberIsZero(waiters[1..], x);
      assert waiters == [waiters[0]] + waiters[1..];
    }
  }

  /** Every coalesced submit was counted as an item of its own, which no worker takes. And
      work that is counted and waits has a worker that will look at it. */
  ghost predicate Inv<T>(p: Pool<T>) {
    && p.pending + (if p.uncounted then 1 else 0) == |p.queue| + BusyOf(p.workers) + p.coalesced
    && (p.uncounted ==> p.queue != [])
    && (p.queue != [] && !p.uncounted && |p.workers| > 0 ==> exists w :: 0 <= w < |p.workers| && !p.workers[w].Blocked?)
  }

  lemma StepInv<T>(eq: (T, T) -> bool, p: Pool<T>, step: Step<T>)
    requires Inv(p) && CanStep(p, step)
    ensures Inv(Do(eq, p, step)) && Do(eq, p, step).coalesced >= p.coalesced
  {
    StepCounts(eq, p, step);
    var p' := Do(eq, p, step);
    match step
    case CountSubmit(woken) =>
      if woken.Some? {
        assert !p'.workers[woken.value].Blocked?;
      } else if |p.workers| > 0 {
        assert p.workers[0] != Blocked;
      }
    case Take(w) => assert !p'.workers[w].Blocked?;
    case Finish(w, _) => assert !p'.workers[w].Blocked?;
    case _ =>
  }

  lemma StepCounts<T>(eq: (T, T) -> bool, p: Pool<T>, step: Step<T>)
    requires CanStep(p, step) && (p.uncounted ==> p.queue != [])
    requires p.pending + (if p.uncounted then 1 else 0) == |p.queue| + BusyOf(p.workers) + p.coalesced
    ensures var p' := Do(eq, p, step);
      && p'.pending + (if p'.uncounted then 1 else 0) == |p'.queue| + BusyOf(p'.workers) + p'.coalesced
      && (p'.uncounted ==> p'.queue != [])
  {
    match step
    case CountSubmit(woken) => if woken.Some? { BusyUpdate(p.workers, woken.value, Looking); }
    case Take(w) => BusyUpdate(p.workers, w, Busy(p.queue[0]));
    case Block(w) => BusyUpdate(p.workers, w, Blocked);
    case Finish(w, _) => BusyUpdate(p.workers, w, Looking);
    case _ =>
  }

  lemma AllLook<T>(workers: nat)
    ensures BusyOf(seq<Worker<T>>(workers, _ => Looking)) == 0
  {
    NobodyBusy(seq<Worker<T>>(workers, _ => Looking));
  }

  lemma {:induction false} RunInv<T(!new)>(eq: (T, T) -> bool, run: seq<Pool<T>>, i: nat)
    requires IsRun(eq, run) && i < |run|
    ensures Inv(run[i])
    ensures forall k :: 0 <= k <= i ==> run[k].coalesced <= run[i].coalesced
  {
    if i == 0 {
      AllLook<T>(|run[0].workers|);
    } else {
      RunInv(eq, run, i - 1);
      assert Next(eq, run[i - 1], run[i - 1 + 1]);
      var step :| CanStep(run[i - 1], step) && run[i] == Do(eq, run[i - 1], step);
      StepInv(eq, run[i - 1], step);
    }
  }

  // ------------------------------------------------------- when waits return

  /** A call of pool_wait_completion returns with this step, its first test or a later one. */
  predicate Returns<T(==)>(p: Pool<T>, step: Step<T>) {
    CanStep(p, step) && (step.Wait? || step.Retest?) && IsIdle(p)
  }

  /** The count never drops below zero, so a worker's test for zero does not miss it. And no
      wait is too short: a call returns only when nothing is queued or being processed,
      unless a submit is still on its way to count its item. */
  lemma WaitIsNotTooShort<T(!new)>(eq: (T, T) -> bool, run: seq<Pool<T>>, i: nat, step: Step<T>)
    requires IsRun(eq, run) && i < |run|
    ensures run[i].pending >= 0
    ensures Returns(run[i], step) && !run[i].uncounted ==> AtRest(run[i])
  {
    RunInv(eq, run, i);
  }

  /** After a coalesced submit no call returns any more, whatever else happens. */
  lemma CoalescedWaitNeverReturns<T(!new)>(eq: (T, T) -> bool, run: seq<Pool<T>>, i: nat, j: nat, step: Step<T>)
    requires IsRun(eq, run) && i <= j < |run| && run[i].coalesced > 0
    ensures !Returns(run[j], step)
  {
    RunInv(eq, run, j);
  }

  /** Not a new call of pool_submit_work or pool_wait_completion. */
  predicate Continues<T>(step: Step<T>) { !step.Submit? && !step.Wait? }

  /** A stretch of a run in which no new call is made. */
  ghost predicate IsDrain<T(!new)>(eq: (T, T) -> bool, path: seq<Pool<T>>) {
    && |path| > 0
    && (|path| > 1 ==> Advances(eq, path[0], path[1]) && IsDrain(eq, path[1..]))
  }

  ghost predicate Advances<T(!new)>(eq: (T, T) -> bool, p: Pool<T>, p': Pool<T>) {
    exists step :: CanStep(p, step) && Continues(step) && p' == Do(eq, p, step)
  }

  /** Without a new call nothing more can happen. */
  ghost predicate Stuck<T(!new)>(p: Pool<T>) {
    forall step: Step<T> :: CanStep(p, step) ==> !Continues(step)
  }

  predicate NobodyInside<T>(p: Pool<T>) {
    forall t :: 0 <= t < |p.waiters| ==> p.waiters[t] == Outside
  }

  /** How many threads are inside pool_wait_completion. */
  function Inside(waiters: seq<Waiter>): nat { Number(waiters, Asleep) + Number(waiters, Woken) }

  lemma InsideIsZero<T>(p: Pool<T>)
    ensures Inside(p.waiters) == 0 <==> NobodyInside(p)
  {
    NumberIsZero(p.waiters, Asleep);
    NumberIsZero(p.waiters, Woken);
    assert NobodyInside(p) <==> Asleep !in p.waiters && Woken !in p.waiters;
  }

  /** What a step that is no new call does to the waiters: the zero of the count wakes one
      sleeper, if there is one; a test puts a woken thread out or back to sleep. */
  lemma StepWaiters<T>(eq: (T, T) -> bool, p: Pool<T>, step: Step<T>)
    requires CanStep(p, step) && Continues(step)
    ensures var ws, ws' := p.waiters, Do(eq, p, step).waiters;
      var asleep, woken := Number(ws, Asleep), Number(ws, Woken);
      && Number(ws', Asleep) == (
           if step.Finish? && p.pending == 1 && asleep > 0 then asleep - 1
           else if step.Retest? && !IsIdle(p) then asleep + 1
           else asleep)
      && Number(ws', Woken) == (
           if step.Finish? && p.pending == 1 && asleep > 0 then woken + 1
           else if step.Retest? then woken - 1
           else woken)
  {
    match step
    case Finish(_, woken) =>
      NumberIsZero(p.waiters, Asleep);
      if woken.Some? {
        NumberUpdate(p.waiters, woken.value, Woken, Asleep);
        NumberUpdate(p.waiters, woken.value, Woken, Woken);
      }
    case Retest(t) =>
      var x := if IsIdle(p) then Outside else Asleep;
      NumberUpdate(p.waiters, t, x, Asleep);
      NumberUpdate(p.waiters, t, x, Woken);
    case _ =>
  }

  // ------------------------------------------------------------ coming to rest

  function WorkerSteps<T>(workers: seq<Worker<T>>): nat {
    if workers == [] then 0 else
    (match workers[0] case Looking => 1 case Blocked => 0 case Busy(_) => 3) + WorkerSteps(workers[1..])
  }

  /** The number of steps, at most, until a new call is needed. */
  function Remaining<T>(p: Pool<T>): nat {
    4 * |p.queue| + WorkerSteps(p.workers) + Number(p.waiters, Woken) + if p.uncounted then 2 else 0
  }

  lemma {:induction false} WorkerStepsUpdate<T>(workers: seq<Worker<T>>, w: nat, x: Worker<T>)
    requires w < |workers|
    ensures WorkerSteps(workers[w := x]) + WorkerSteps([workers[w]]) == WorkerSteps(workers) + WorkerSteps([x])
  {
    if w == 0 {
      assert workers[0 := x][1..] == workers[1..];
    } else {
      assert workers[w := x][1..] == workers[1..][w - 1 := x];
      WorkerStepsUpdate(workers[1..], w - 1, x);
    }
  }

  lemma StepWorks<T>(eq: (T, T) -> bool, p: Pool<T>, step: Step<T>)
    requires CanStep(p, step) && Continues(step)
    ensures Remaining(Do(eq, p, step)) < Remaining(p)
  {
    StepWaiters(eq, p, step);
    hide Number;
    match step
    case CountSubmit(woken) => if woken.Some? { WorkerStepsUpdate(p.workers, woken.value, Looking); }
    case Take(w) => WorkerStepsUpdate(p.workers, w, Busy(p.queue[0]));
    case Block(w) => WorkerStepsUpdate(p.workers, w, Blocked);
    case Finish(w, _) => WorkerStepsUpdate(p.workers, w, Looking);
    case Retest(_) =>
  }

  lemma CountsSubmit<T>(p: Pool<T>) returns (step: Step<T>)
    requires p.uncounted
    ensures step.CountSubmit? && CanStep(p, step)
  {
    if w :| 0 <= w < |p.workers| && p.workers[w].Blocked? {
      step := CountSubmit(Some(w));
    } else {
      step := CountSubmit(None);
    }
  }

  /** No wake-up of a worker is lost: a pool with workers that is not at rest can take a step
      without any new call. */
  lemma PoolGoesOn<T>(p: Pool<T>) returns (step: Step<T>)
    requires Inv(p) && |p.workers| > 0 && !AtRest(p)
    ensures CanStep(p, step) && Continues(step)
  {
    NobodyBusy(p.workers);
    if p.uncounted {
      step := CountsSubmit(p);
    } else if w :| 0 <= w < |p.workers| && p.workers[w].Busy? {
      if t :| 0 <= t < |p.waiters| && p.waiters[t] == Asleep {
        step := Finish(w, if p.pending == 1 then Some(t) else None);
      } else {
        step := Finish(w, None);
      }
    } else {
      var w :| 0 <= w < |p.workers| && !p.workers[w].Blocked?;
      step := Take(w);
    }
  }

  /** Where nothing more can happen the pool is at rest, and whoever still waits sleeps. */
  lemma StuckIsAtRest<T(!new)>(p: Pool<T>)
    requires Inv(p) && |p.workers| > 0 && Stuck(p)
    ensures AtRest(p)
    ensures forall t :: 0 <= t < |p.waiters| ==> p.waiters[t] != Woken
  {
    if !AtRest(p) {
      var step := PoolGoesOn(p);
    }
    forall t | 0 <= t < |p.waiters| ensures p.waiters[t] != Woken {
      assert CanStep(p, Step<T>.Retest(t)) ==> !Continues(Step<T>.Retest(t));
    }
  }

  // ------------------------------------------------- who returns in the end

  /** Nobody waits; or nothing was coalesced and, with the count at zero and staying there,
      nobody sleeps, or else at most one thread waits. */
  predicate AllWillReturn<T>(p: Pool<T>) {
    || Inside(p.waiters) == 0
    || (p.coalesced == 0
        && if IsIdle(p) && !p.uncounted then Number(p.waiters, Asleep) == 0 else Inside(p.waiters) <= 1)
  }

  /** Somebody will not return without a new call: the count cannot reach zero, or is there
      with somebody asleep, or will get there with two asleep. */
  predicate BoundToStay<T>(p: Pool<T>) {
    || (p.coalesced > 0 && Inside(p.waiters) > 0)
    || (!p.uncounted && Number(p.waiters, Asleep) >= if IsIdle(p) then 1 else 2)
  }

  lemma StepKeepsFate<T>(eq: (T, T) -> bool, p: Pool<T>, step: Step<T>)
    requires Inv(p) && CanStep(p, step) && Continues(step)
    ensures AllWillReturn(p) ==> AllWillReturn(Do(eq, p, step))
    ensures BoundToStay(p) ==> BoundToStay(Do(eq, p, step))
  {
    StepWaiters(eq, p, step);
    StepCounts(eq, p, step);
    NobodyBusy(p.workers);
    hide Number, BusyOf;
  }

  lemma AdvancesKeeps<T(!new)>(eq: (T, T) -> bool, p: Pool<T>, p': Pool<T>)
    requires Inv(p) && Advances(eq, p, p')
    ensures Inv(p') && |p'.workers| == |p.workers| && Remaining(p') < Remaining(p)
    ensures AllWillReturn(p) ==> AllWillReturn(p')
    ensures BoundToStay(p) ==> BoundToStay(p')
  {
    var step :| CanStep(p, step) && Continues(step) && p' == Do(eq, p, step);
    StepInv(eq, p, step);
    StepWorks(eq, p, step);
    StepKeepsFate(eq, p, step);
  }

  lemma {:induction false} DrainKeeps<T(!new)>(eq: (T, T) -> bool, path: seq<Pool<T>>)
    requires IsDrain(eq, path) && Inv(path[0])
    ensures var first, last := path[0], path[|path| - 1];
      && Inv(last) && |last.workers| == |first.workers|
      && |path| - 1 + Remaining(last) <= Remaining(first)
      && (AllWillReturn(first) ==> AllWillReturn(last))
      && (BoundToStay(first) ==> BoundToStay(last))
  {
    hide Inv, AllWillReturn, BoundToStay, Advances, Remaining;
    if |path| > 1 {
      AdvancesKeeps(eq, path[0], path[1]);
      DrainKeeps(eq, path[1..]);
    }
  }

  /** However threads are scheduled: without new calls the pool takes a bounded number of
      steps, and when it can take no more all work is done. */
  lemma DrainsEnd<T(!new)>(eq: (T, T) -> bool, path: seq<Pool<T>>)
    requires IsDrain(eq, path) && Inv(path[0]) && |path[0].workers| > 0
    ensures |path| - 1 <= Remaining(path[0])
    ensures Stuck(path[|path| - 1]) ==> AtRest(path[|path| - 1])
  {
    DrainKeeps(eq, path);
    if Stuck(path[|path| - 1]) {
      StuckIsAtRest(path[|path| - 1]);
    }
  }

  /** Where nothing more can happen, either fate has come true. */
  lemma FateComesTrue<T(!new)>(p: Pool<T>)
    requires Inv(p) && |p.workers| > 0 && Stuck(p)
    ensures AllWillReturn(p) ==> NobodyInside(p)
    ensures BoundToStay(p) ==> !NobodyInside(p)
  {
    StuckIsAtRest(p);
    hide Stuck;
    InsideIsZero(p);
    NumberIsZero(p.waiters, Woken);
  }

  /** Such a stretch exists from every reachable state of a pool with workers. */
  lemma {:induction false} PoolComesToRest<T(!new)>(eq: (T, T) -> bool, p: Pool<T>) returns (path: seq<Pool<T>>)
    requires Inv(p) && |p.workers| > 0
    ensures IsDrain(eq, path) && path[0] == p && Stuck(path[|path| - 1])
    decreases Remaining(p)
  {
    if Stuck(p) {
      path := [p];
    } else {
      var step :| CanStep(p, step) && Continues(step);
      var p' := Do(eq, p, step);
      assert Advances(eq, p, p');
      AdvancesKeeps(eq, p, p');
      var rest := PoolComesToRest(eq, p');
      path := [p] + rest;
      assert path[1..] == rest;
    }
  }

  /** Unless all will return, there is a schedule, without new calls, after which nothing more
      can happen and somebody is still inside: let the submit count its item first, and let
      those who were woken find that the count is not zero. */
  lemma {:induction false} SomebodyStays<T(!new)>(eq: (T, T) -> bool, p: Pool<T>) returns (path: seq<Pool<T>>)
    requires Inv(p) && |p.workers| > 0 && !AllWillReturn(p)
    ensures IsDrain(eq, path) && path[0] == p && Stuck(path[|path| - 1]) && !NobodyInside(path[|path| - 1])
    decreases Remaining(p)
  {
    if BoundToStay(p) {
      path := PoolComesToRest(eq, p);
      DrainKeeps(eq, path);
      FateComesTrue(path[|path| - 1]);
    } else {
      var step := TowardsSleep(eq, p);
      var p' := Do(eq, p, step);
      assert Advances(eq, p, p');
      AdvancesKeeps(eq, p, p');
      var rest := SomebodyStays(eq, p');
      path := [p] + rest;
      assert path[1..] == rest;
    }
  }

  lemma TowardsSleep<T>(eq: (T, T) -> bool, p: Pool<T>) returns (step: Step<T>)
    requires Inv(p) && |p.workers| > 0 && !AllWillReturn(p) && !BoundToStay(p)
    ensures CanStep(p, step) && Continues(step) && !AllWillReturn(Do(eq, p, step))
  {
    if p.uncounted {
      step := CountsSubmit(p);
    } else {
      NumberIsZero(p.waiters, Woken);
      var t :| 0 <= t < |p.waiters| && p.waiters[t] == Woken;
      step := Retest(t);
    }
    StepWaiters(eq, p, step);
  }

  /** Whatever the schedule, everyone has returned when, without new calls, nothing more can
      happen. */
  ghost predicate EveryoneReturns<T(!new)>(eq: (T, T) -> bool, p: Pool<T>) {
    forall path :: IsDrain(eq, path) && path[0] == p && Stuck(path[|path| - 1]) ==> NobodyInside(path[|path| - 1])
  }

  /** Exactly when that is so, said of the pool as it is before. */
  lemma EveryWaitReturnsIff<T(!new)>(eq: (T, T) -> bool, p: Pool<T>)
    requires Inv(p) && |p.workers| > 0
    ensures EveryoneReturns(eq, p) <==> AllWillReturn(p)
  {
    hide Stuck, AllWillReturn, BoundToStay, NobodyInside;
    if AllWillReturn(p) {
      forall path | IsDrain(eq, path) && path[0] == p && Stuck(path[|path| - 1])
        ensures NobodyInside(path[|path| - 1])
      {
        DrainKeeps(eq, path);
        FateComesTrue(path[|path| - 1]);
      }
    } else {
      var path := SomebodyStays(eq, p);
    }
  }

  // ------------------------------------------------------------ a single waiter

  lemma {:induction false} NumberBound(waiters: seq<Waiter>)
    ensures Inside(waiters) <= |waiters|
  {
    if waiters != [] {
      NumberBound(waiters[1..]);
    }
  }

  lemma StepAlone<T>(eq: (T, T) -> bool, p: Pool<T>, step: Step<T>)
    requires Inv(p) && CanStep(p, step) && |p.waiters| <= 1
    requires IsIdle(p) ==> Asleep !in p.waiters
    ensures var p' := Do(eq, p, step); |p'.waiters| == |p.waiters| && (IsIdle(p') ==> Asleep !in p'.waiters)
  {
    StepCounts(eq, p, step);
    NobodyBusy(p.workers);
  }

  lemma {:induction false} AloneInRun<T(!new)>(eq: (T, T) -> bool, run: seq<Pool<T>>, i: nat)
    requires IsRun(eq, run) && i < |run| && |run[0].waiters| <= 1
    ensures |run[i].waiters| <= 1 && (IsIdle(run[i]) ==> Asleep !in run[i].waiters)
  {
    if i > 0 {
      AloneInRun(eq, run, i - 1);
      RunInv(eq, run, i - 1);
      assert Next(eq, run[i - 1], run[i - 1 + 1]);
      var step :| CanStep(run[i - 1], step) && run[i] == Do(eq, run[i - 1], step);
      StepAlone(eq, run[i - 1], step);
    }
  }

  /** With one thread that waits, at any time in any run: its wait returns, under every
      schedule, if and only if it is not inside one or nothing was coalesced. */
  lemma OneWaiterReturnsIff<T(!new)>(eq: (T, T) -> bool, run: seq<Pool<T>>, i: nat)
    requires IsRun(eq, run) && i < |run| && |run[0].waiters| <= 1 && |run[i].workers| > 0
    ensures EveryoneReturns(eq, run[i]) <==> NobodyInside(run[i]) || run[i].coalesced == 0
  {
    RunInv(eq, run, i);
    AloneInRun(eq, run, i);
    EveryWaitReturnsIff(eq, run[i]);
    InsideIsZero(run[i]);
    NumberBound(run[i].waiters);
    NumberIsZero(run[i].waiters, Asleep);
  }

  // -------------------------------------------------------- the failing runs

  lemma NothingToDo<T(!new)>(p: Pool<T>)
    requires AtRest(p) && Woken !in p.waiters && forall w :: 0 <= w < |p.workers| ==> p.workers[w].Blocked?
    ensures Stuck(p)
  {
  }

  ghost predicate Leads<T(!new)>(eq: (T, T) -> bool, p: Pool<T>, step: Step<T>, p': Pool<T>) {
    CanStep(p, step) && p' == Do(eq, p, step)
  }

  lemma Follow<T(!new)>(eq: (T, T) -> bool, p: Pool<T>, step: Step<T>, p': Pool<T>)
    requires Leads(eq, p, step, p')
    ensures Next(eq, p, p')
  {
  }

  /** One item submitted twice before the only worker takes it. All work is then done, one
      item is still counted, and the thread that waits sleeps on. */
  lemma SubmittedTwice(eq: (int, int) -> bool) returns (run: seq<Pool<int>>)
    requires Equivalence(eq)
    ensures IsRun(eq, run)
    ensures var last := run[|run| - 1];
      AtRest(last) && last.pending == 1 && last.waiters == [Asleep] && Stuck(last)
  {
    hide Next, Stuck, AtRest;
    IndexOfIs(eq, [], 7, 0);
    IndexOfIs(eq, [7], 7, 0);
    var p0 := Pool([], 0, false, [Looking], [Outside], 0);
    var p1 := Pool([7], 0, true, [Looking], [Outside], 0);
    var p2 := Pool([7], 1, false, [Looking], [Outside], 0);
    var p3 := Pool([7], 1, true, [Looking], [Outside], 1);
    var p4 := Pool([7], 2, false, [Looking], [Outside], 1);
    var p5 := Pool([7], 2, false, [Looking], [Asleep], 1);
    var p6 := Pool([], 2, false, [Busy(7)], [Asleep], 1);
    var p7 := Pool([], 1, false, [Looking], [Asleep], 1);
    var p8 := Pool([], 1, false, [Blocked], [Asleep], 1);
    assert p0 == Start(1, 1);
    Follow(eq, p0, Submit(7), p1);
    Follow(eq, p1, CountSubmit(None), p2);
    Follow(eq, p2, Submit(7), p3);
    Follow(eq, p3, CountSubmit(None), p4);
    Follow(eq, p4, Wait(0), p5);
    Follow(eq, p5, Take(0), p6);
    Follow(eq, p6, Finish(0, None), p7);
    Follow(eq, p7, Block(0), p8);
    EndsAtRest(p8);
    run := [p0, p1, p2, p3, p4, p5, p6, p7, p8];
  }

  lemma EndsAtRest(p: Pool<int>)
    requires p.queue == [] && !p.uncounted && p.workers == [Blocked] && Woken !in p.waiters
    ensures AtRest(p) && Stuck(p)
  {
    NothingToDo(p);
  }

  /** One item, and two threads that wait for it. The zero of the count wakes one of them;
      the other sleeps on, although nothing was coalesced and all work is done. */
  lemma TwoWaiters(eq: (int, int) -> bool) returns (run: seq<Pool<int>>)
    ensures IsRun(eq, run)
    ensures var last := run[|run| - 1];
      && AtRest(last) && last.pending == 0 && last.coalesced == 0
      && last.waiters == [Outside, Asleep] && Stuck(last)
  {
    hide Next, Stuck, AtRest;
    IndexOfIs(eq, [], 7, 0);
    var p0 := Pool([], 0, false, [Looking], [Outside, Outside], 0);
    var p1 := Pool([7], 0, true, [Looking], [Outside, Outside], 0);
    var p2 := Pool([7], 1, false, [Looking], [Outside, Outside], 0);
    var p3 := Pool([7], 1, false, [Looking], [Asleep, Outside], 0);
    var p4 := Pool([7], 1, false, [Looking], [Asleep, Asleep], 0);
    var p5 := Pool([], 1, false, [Busy(7)], [Asleep, Asleep], 0);
    var p6 := Pool([], 0, false, [Looking], [Woken, Asleep], 0);
    var p7 := Pool([], 0, false, [Looking], [Outside, Asleep], 0);
    var p8 := Pool([], 0, false, [Blocked], [Outside, Asleep], 0);
    assert p0 == Start(1, 2);
    Follow(eq, p0, Submit(7), p1);
    Follow(eq, p1, CountSubmit(None), p2);
    Follow(eq, p2, Wait(0), p3);
    Follow(eq, p3, Wait(1), p4);
    Follow(eq, p4, Take(0), p5);
    Follow(eq, p5, Finish(0, Some(0)), p6);
    Follow(eq, p6, Retest(0), p7);
    Follow(eq, p7, Block(0), p8);
    EndsAtRest(p8);
    run := [p0, p1, p2, p3, p4, p5, p6, p7, p8];
  }
}
