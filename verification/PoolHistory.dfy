/**
 Which items the worker pool processes, over its whole runs: the ones its queue's pops return,
 in that order, each once; so that when the pool comes to rest every submitted item has been
 processed or was replaced, while it waited, by one that equals it.
 */
module PoolHistory {
  import opened Prelude
  import opened Queue
  import opened QueueRuns
  import opened WorkerPool

  /** A run of the pool with the steps it took. */
  ghost predicate IsHistory<T(!new)>(eq: (T, T) -> bool, run: seq<Pool<T>>, steps: seq<Step<T>>) {
    && |run| == |steps| + 1
    && run[0] == Start(|run[0].workers|, |run[0].waiters|)
    && forall k: nat :: k < |steps| ==> Leads(eq, run[k], steps[k], run[k + 1])
  }

  lemma HistoryIsRun<T(!new)>(eq: (T, T) -> bool, run: seq<Pool<T>>, steps: seq<Step<T>>)
    requires IsHistory(eq, run, steps)
    ensures IsRun(eq, run)
  {
    forall k: nat | k + 1 < |run| ensures Next(eq, run[k], run[k + 1]) {
      Follow(eq, run[k], steps[k], run[k + 1]);
    }
  }

  /** Every run has such steps. */
  lemma {:induction false} RunHasHistory<T(!new)>(eq: (T, T) -> bool, run: seq<Pool<T>>) returns (steps: seq<Step<T>>)
    requires IsRun(eq, run)
    ensures IsHistory(eq, run, steps)
  {
    hide CanStep, Do;
    if |run| == 1 {
      steps := [];
    } else {
      var n := |run| - 1;
      var before := RunHasHistory(eq, run[..n]);
      assert Next(eq, run[n - 1], run[n - 1 + 1]);
      var step :| CanStep(run[n - 1], step) && run[n] == Do(eq, run[n - 1], step);
      assert Leads(eq, run[n - 1], step, run[n]);
      steps := before + [step];
    }
  }

  // --------------------------------------------------------- what the queue sees

  /** The calls of pool_submit_work, in the order in which they pushed their items. */
  function Submitted<T>(steps: seq<Step<T>>): seq<T> {
    if steps == [] then [] else
    var before, step := Submitted(steps[..|steps| - 1]), steps[|steps| - 1];
    if step.Submit? then before + [step.item] else before
  }

  /** The queue operations these steps make. */
  function Ops<T>(steps: seq<Step<T>>): seq<Op<T>> {
    if steps == [] then [] else
    Ops(steps[..|steps| - 1]) + OpOf(steps[|steps| - 1])
  }

  function OpOf<T>(step: Step<T>): seq<Op<T>> {
    match step
    case Submit(x) => [PushOp(x)]
    case Take(_) => [PopOp]
    case _ => []
  }

  function QueueAfter<T>(eq: (T, T) -> bool, s: seq<T>, step: Step<T>): seq<T> {
    if step.Submit? then Push(eq, s, step.item) else if step.Take? then Pop(s) else s
  }

  function Coalesces<T>(eq: (T, T) -> bool, step: Step<T>, s: seq<T>): nat {
    if step.Submit? && Waiting(eq, s, step.item) then 1 else 0
  }

  function TakenBy<T>(step: Step<T>, s: seq<T>): seq<T> { if step.Take? && s != [] then [s[0]] else [] }

  // ------------------------------------------------------ what the workers process

  /** The items of workers that were not busy before and are after. */
  function Begun<T>(ws: seq<Worker<T>>, ws': seq<Worker<T>>): seq<T>
    requires |ws| == |ws'|
  {
    if ws == [] then [] else
    (if ws'[0].Busy? && !ws[0].Busy? then [ws'[0].item] else []) + Begun(ws[1..], ws'[1..])
  }

  /** The items with which workers become busy, in order. */
  ghost function Taken<T>(run: seq<Pool<T>>): seq<T>
    requires SameWorkers(run)
  {
    if |run| <= 1 then [] else
    var n := |run| - 1;
    Taken(run[..n]) + Begun(run[n - 1].workers, run[n].workers)
  }

  /** The items whose processing ends, in order. */
  ghost function Processed<T>(run: seq<Pool<T>>): seq<T>
    requires SameWorkers(run)
  {
    if |run| <= 1 then [] else
    var n := |run| - 1;
    Processed(run[..n]) + Begun(run[n].workers, run[n - 1].workers)
  }

  ghost predicate SameWorkers<T>(run: seq<Pool<T>>) {
    forall k :: 0 <= k < |run| ==> |run[k].workers| == |run[0].workers|
  }

  /** The items being processed. */
  ghost function InWork<T>(ws: seq<Worker<T>>): multiset<T> {
    if ws == [] then multiset{} else ItemOf(ws[0]) + InWork(ws[1..])
  }

  ghost function ItemOf<T>(w: Worker<T>): multiset<T> { if w.Busy? then multiset{w.item} else multiset{} }

  lemma {:induction false} NothingBegun<T>(ws: seq<Worker<T>>)
    ensures Begun(ws, ws) == []
  {
    if ws != [] {
      NothingBegun(ws[1..]);
    }
  }

  lemma {:induction false} BegunUpdate<T>(ws: seq<Worker<T>>, w: nat, x: Worker<T>)
    requires w < |ws|
    ensures Begun(ws, ws[w := x]) == if x.Busy? && !ws[w].Busy? then [x.item] else []
    ensures Begun(ws[w := x], ws) == if ws[w].Busy? && !x.Busy? then [ws[w].item] else []
  {
    var ws' := ws[w := x];
    if w == 0 {
      assert ws'[1..] == ws[1..];
      NothingBegun(ws[1..]);
    } else {
      assert ws'[1..] == ws[1..][w - 1 := x];
      BegunUpdate(ws[1..], w - 1, x);
    }
  }

  lemma {:induction false} InWorkUpdate<T>(ws: seq<Worker<T>>, w: nat, x: Worker<T>)
    requires w < |ws|
    ensures InWork(ws[w := x]) + ItemOf(ws[w]) == InWork(ws) + ItemOf(x)
  {
    hide ItemOf;
    var ws' := ws[w := x];
    if w == 0 {
      assert ws'[1..] == ws[1..];
    } else {
      assert ws'[1..] == ws[1..][w - 1 := x];
      InWorkUpdate(ws[1..], w - 1, x);
      assert InWork(ws') + ItemOf(ws[w]) == ItemOf(ws[0]) + (InWork(ws'[1..]) + ItemOf(ws[w]));
    }
  }

  lemma {:induction false} NobodyInWork<T>(ws: seq<Worker<T>>)
    ensures BusyOf(ws) == |InWork(ws)|
  {
    if ws != [] {
      NobodyInWork(ws[1..]);
    }
  }

  /** One step: the queue takes the step's operation, whoever becomes busy does so with what
      the pop returns, and no item changes while it is processed. */
  lemma StepWork<T>(eq: (T, T) -> bool, p: Pool<T>, step: Step<T>)
    requires CanStep(p, step)
    ensures var p' := Do(eq, p, step);
      && |p'.workers| == |p.workers|
      && p'.queue == QueueAfter(eq, p.queue, step)
      && p'.coalesced == p.coalesced + Coalesces(eq, step, p.queue)
      && Begun(p.workers, p'.workers) == TakenBy(step, p.queue)
      && InWork(p'.workers) + multiset(Begun(p'.workers, p.workers))
         == InWork(p.workers) + multiset(Begun(p.workers, p'.workers))
  {
    NothingBegun(p.workers);
    match step
    case CountSubmit(woken) => if woken.Some? { WorkerUpdate(p.workers, woken.value, Looking); }
    case Take(w) => WorkerUpdate(p.workers, w, Busy(p.queue[0]));
    case Block(w) => WorkerUpdate(p.workers, w, Blocked);
    case Finish(w, _) => WorkerUpdate(p.workers, w, Looking);
    case _ =>
  }

  lemma WorkerUpdate<T>(ws: seq<Worker<T>>, w: nat, x: Worker<T>)
    requires w < |ws| && (ws[w].Busy? ==> !x.Busy?)
    ensures var ws' := ws[w := x];
      && Begun(ws, ws') == (if x.Busy? then [x.item] else [])
      && InWork(ws') + multiset(Begun(ws', ws)) == InWork(ws) + multiset(Begun(ws, ws'))
  {
    var ws' := ws[w := x];
    BegunUpdate(ws, w, x);
    InWorkUpdate(ws, w, x);
    assert multiset(Begun(ws', ws)) == ItemOf(ws[w]) && multiset(Begun(ws, ws')) == ItemOf(x);
  }

  // ------------------------------------------------------------------ whole runs

  /** What a step adds to the operations, and to what they return. */
  lemma OpsStep<T>(eq: (T, T) -> bool, before: seq<Step<T>>, step: Step<T>)
    ensures var steps, s := before + [step], Contents(eq, Ops(before));
      && Contents(eq, Ops(steps)) == QueueAfter(eq, s, step)
      && Popped(eq, Ops(steps)) == Popped(eq, Ops(before)) + TakenBy(step, s)
      && Removed(eq, Ops(steps)) == Removed(eq, Ops(before))
      && |Replaced(eq, Ops(steps))| == |Replaced(eq, Ops(before))| + Coalesces(eq, step, s)
      && Pushed(Ops(steps)) == Pushed(Ops(before)) + (if step.Submit? then [step.item] else [])
      && Submitted(steps) == Submitted(before) + (if step.Submit? then [step.item] else [])
  {
    var steps := before + [step];
    assert steps[..|steps| - 1] == before;
    if OpOf(step) == [] {
      assert Ops(steps) == Ops(before);
    } else {
      assert Ops(steps)[..|Ops(steps)| - 1] == Ops(before);
    }
  }

  /** What WorkersTakeWhatIsPopped says of the run's last state. */
  ghost predicate Agree<T>(eq: (T, T) -> bool, run: seq<Pool<T>>, steps: seq<Step<T>>)
    requires run != [] && SameWorkers(run)
  {
    var last := run[|run| - 1];
    && last.queue == Contents(eq, Ops(steps))
    && last.coalesced == |Replaced(eq, Ops(steps))|
    && Taken(run) == Popped(eq, Ops(steps))
    && Submitted(steps) == Pushed(Ops(steps)) && Removed(eq, Ops(steps)) == []
    && Balanced(run)
  }

  /** What was taken has been processed or is in work. */
  ghost predicate Balanced<T>(run: seq<Pool<T>>)
    requires run != [] && SameWorkers(run)
  {
    multiset(Taken(run)) == multiset(Processed(run)) + InWork(run[|run| - 1].workers)
  }

  lemma Moved<T>(taken: seq<T>, done: seq<T>, inWork: multiset<T>, inWork': multiset<T>, begins: seq<T>, ends: seq<T>)
    requires multiset(taken) == multiset(done) + inWork
    requires inWork' + multiset(ends) == inWork + multiset(begins)
    ensures multiset(taken + begins) == multiset(done + ends) + inWork'
  {
    assert multiset(done) + inWork + multiset(begins) == multiset(done) + (inWork + multiset(begins));
    assert multiset(done) + multiset(ends) + inWork' == multiset(done) + (inWork' + multiset(ends));
    assert multiset(taken + begins) == multiset(taken) + multiset(begins);
    assert multiset(done + ends) == multiset(done) + multiset(ends);
  }

  lemma BalancedAfter<T>(run: seq<Pool<T>>, p': Pool<T>)
    requires run != [] && SameWorkers(run) && Balanced(run) && |p'.workers| == |run[0].workers|
    requires var ws, ws' := run[|run| - 1].workers, p'.workers;
      InWork(ws') + multiset(Begun(ws', ws)) == InWork(ws) + multiset(Begun(ws, ws'))
    ensures SameWorkers(run + [p']) && Balanced(run + [p'])
  {
    hide InWork, Begun;
    var ws, ws' := run[|run| - 1].workers, p'.workers;
    RunStep(run, p');
    hide SameWorkers, Taken, Processed;
    Moved(Taken(run), Processed(run), InWork(ws), InWork(ws'), Begun(ws, ws'), Begun(ws', ws));
  }

  lemma AgreeStep<T>(eq: (T, T) -> bool, run: seq<Pool<T>>, steps: seq<Step<T>>, step: Step<T>, p': Pool<T>)
    requires run != [] && SameWorkers(run) && Agree(eq, run, steps)
    requires CanStep(run[|run| - 1], step) && p' == Do(eq, run[|run| - 1], step)
    ensures SameWorkers(run + [p']) && Agree(eq, run + [p'], steps + [step])
  {
    var p := run[|run| - 1];
    OpsStep(eq, steps, step);
    StepWork(eq, p, step);
    BalancedAfter(run, p');
    RunStep(run, p');
    hide Do, CanStep, InWork, Begun, Contents, Popped, Pushed, Submitted, Removed, Ops, QueueAfter, TakenBy,
      Coalesces, Taken, Processed, SameWorkers, Balanced;
  }

  lemma RunStep<T>(run: seq<Pool<T>>, p': Pool<T>)
    requires run != [] && SameWorkers(run) && |p'.workers| == |run[0].workers|
    ensures SameWorkers(run + [p'])
    ensures var p := run[|run| - 1];
      && Taken(run + [p']) == Taken(run) + Begun(p.workers, p'.workers)
      && Processed(run + [p']) == Processed(run) + Begun(p'.workers, p.workers)
  {
    var run' := run + [p'];
    assert run'[..|run'| - 1] == run;
  }

  /**
   In every run: the queue holds what its operations leave in it; the items with which workers
   become busy are those its pops return, in that order; each of these has been processed, as
   often as it was taken, or is in work; and the submits' items are the ones pushed.
   */
  lemma {:induction false} WorkersTakeWhatIsPopped<T(!new)>(eq: (T, T) -> bool, run: seq<Pool<T>>, steps: seq<Step<T>>)
    requires IsHistory(eq, run, steps)
    ensures SameWorkers(run) && Agree(eq, run, steps)
  {
    if steps == [] {
      NobodyStarts<T>(|run[0].workers|);
    } else {
      hide Agree, SameWorkers, CanStep, Do, Start;
      var n := |steps| - 1;
      HistoryPrefix(eq, run, steps);
      WorkersTakeWhatIsPopped(eq, run[..n + 1], steps[..n]);
      AgreeStep(eq, run[..n + 1], steps[..n], steps[n], run[n + 1]);
    }
  }

  lemma HistoryPrefix<T(!new)>(eq: (T, T) -> bool, run: seq<Pool<T>>, steps: seq<Step<T>>)
    requires IsHistory(eq, run, steps) && steps != []
    ensures var n := |steps| - 1;
      && IsHistory(eq, run[..n + 1], steps[..n]) && Leads(eq, run[n], steps[n], run[n + 1])
      && run == run[..n + 1] + [run[n + 1]] && steps == steps[..n] + [steps[n]]
  {
    hide Leads;
    var n := |steps| - 1;
    assert Leads(eq, run[n], steps[n], run[n + 1]);
  }

  lemma NobodyStarts<T>(workers: nat)
    ensures InWork(seq<Worker<T>>(workers, _ => Looking)) == multiset{}
  {
    AllLook<T>(workers);
    NobodyInWork(seq<Worker<T>>(workers, _ => Looking));
  }

  /** At rest nothing waits and nothing is in work. */
  lemma AllWorkIsTaken<T(!new)>(eq: (T, T) -> bool, run: seq<Pool<T>>, steps: seq<Step<T>>)
    requires IsHistory(eq, run, steps) && AtRest(run[|run| - 1])
    ensures SameWorkers(run) && Contents(eq, Ops(steps)) == []
    ensures multiset(Popped(eq, Ops(steps))) == multiset(Processed(run))
    ensures Submitted(steps) == Pushed(Ops(steps)) && Removed(eq, Ops(steps)) == []
    ensures run[|run| - 1].coalesced == |Replaced(eq, Ops(steps))|
  {
    WorkersTakeWhatIsPopped(eq, run, steps);
    NobodyInWork(run[|run| - 1].workers);
  }

  /** Every schedule of a pool with workers ends there. */
  lemma EndsAtRest<T(!new)>(eq: (T, T) -> bool, run: seq<Pool<T>>, steps: seq<Step<T>>)
    requires IsHistory(eq, run, steps) && |run[0].workers| > 0 && Stuck(run[|run| - 1])
    ensures AtRest(run[|run| - 1])
  {
    WorkersTakeWhatIsPopped(eq, run, steps);
    HistoryIsRun(eq, run, steps);
    RunInv(eq, run, |run| - 1);
    hide IsHistory, Stuck, Inv;
    StuckIsAtRest(run[|run| - 1]);
  }

  /**
   At rest, where every schedule ends that makes no new call, every submitted item, as often as
   it was submitted, has been processed, or was replaced while it waited by a submitted item
   that equals it. Nothing else has been processed.
   */
  lemma AllWorkIsProcessed<T(!new)>(eq: (T, T) -> bool, run: seq<Pool<T>>, steps: seq<Step<T>>)
    requires IsHistory(eq, run, steps) && AtRest(run[|run| - 1])
    ensures SameWorkers(run)
    ensures multiset(Submitted(steps)) == multiset(Processed(run)) + multiset(Befores(Replaced(eq, Ops(steps))))
    ensures forall r :: r in Replaced(eq, Ops(steps)) ==> eq(r.before, r.after) && r.after in Submitted(steps)
  {
    AllWorkIsTaken(eq, run, steps);
    PushesAreConserved(eq, Ops(steps));
    ReplacedByEqual(eq, Ops(steps));
  }

  /** An item that was submitted once was processed once or replaced, and not both. */
  lemma ProcessedOnce<T(!new)>(eq: (T, T) -> bool, run: seq<Pool<T>>, steps: seq<Step<T>>, x: T)
    requires IsHistory(eq, run, steps) && AtRest(run[|run| - 1]) && multiset(Submitted(steps))[x] == 1
    ensures SameWorkers(run)
    ensures multiset(Processed(run))[x] == if x in Befores(Replaced(eq, Ops(steps))) then 0 else 1
  {
    AllWorkIsProcessed(eq, run, steps);
  }

  /** And of every submitted item one that equals it has been processed. */
  lemma EqualOneIsProcessed<T(!new)>(eq: (T, T) -> bool, run: seq<Pool<T>>, steps: seq<Step<T>>, x: T) returns (y: T)
    requires Equivalence(eq) && IsHistory(eq, run, steps) && AtRest(run[|run| - 1])
    requires x in Submitted(steps)
    ensures SameWorkers(run) && eq(x, y) && y in Processed(run)
  {
    AllWorkIsTaken(eq, run, steps);
    hide IsHistory, Contents, Popped, Pushed, Removed, Ops, Processed;
    y := EqualOneIsServed(eq, Ops(steps), x);
    assert y in multiset(Popped(eq, Ops(steps)));
    assert y in multiset(Processed(run));
  }

  /** What pool_wait_completion is for: when a call returns, with no submit on its way, every
      submitted item has been processed, as often as it was submitted, and none replaced. */
  lemma WaitedWorkIsProcessed<T(!new)>(eq: (T, T) -> bool, run: seq<Pool<T>>, steps: seq<Step<T>>, step: Step<T>)
    requires IsHistory(eq, run, steps)
    requires Returns(run[|run| - 1], step) && !run[|run| - 1].uncounted
    ensures SameWorkers(run) && multiset(Submitted(steps)) == multiset(Processed(run))
  {
    var last := run[|run| - 1];
    HistoryIsRun(eq, run, steps);
    RunInv(eq, run, |run| - 1);
    WaitIsNotTooShort(eq, run, |run| - 1, step);
    hide IsHistory;
    assert last.coalesced == 0;
    AllWorkIsProcessed(eq, run, steps);
    AllWorkIsTaken(eq, run, steps);
  }
}
