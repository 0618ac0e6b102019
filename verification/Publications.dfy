/**
 What calls of `write_double_buffer` and `copy_world_mesh` do for their callers, over whole
 runs of the double buffer: a write publishes its argument, once; nothing else is ever
 published; only what was published and then superseded is freed; and a copy that begins
 after a write has returned is of that write's mesh or of a newer one.
 */
module Publications {
  import opened Prelude
  import opened DoubleBuffer

  /** Thread t calls write_double_buffer with m in state i. */
  ghost predicate Calls(run: seq<State>, t: Tid, m: Option<Mesh>, i: nat) {
    i + 1 < |run| && Enabled(run[i], StartWrite(t, m)) && run[i + 1] == Apply(run[i], StartWrite(t, m))
  }

  /** Its call is not over in any state after i and up to j. */
  ghost predicate Inside(run: seq<State>, t: Tid, i: nat, j: nat) {
    && i < j < |run|
    && (forall k :: i <= k <= j ==> t < |run[k].threads|)
    && forall k :: i < k <= j ==> PcAt(run, k, t) != Idle
  }

  /** And it is over in state j. */
  ghost predicate WriteCall(run: seq<State>, t: Tid, m: Option<Mesh>, i: nat, j: nat) {
    && i + 1 < j < |run| && t < |run[j].threads|
    && Calls(run, t, m, i) && Inside(run, t, i, j - 1) && PcAt(run, j, t) == Idle
  }

  /** The step from state k to state k + 1 puts m at the end of the log. */
  predicate Publishes(run: seq<State>, m: Option<Mesh>, k: nat) {
    k + 1 < |run| && run[k + 1].shared.log == run[k].shared.log + [m]
  }

  /** Thread t takes the step from state k to state k + 1. */
  predicate Moves(run: seq<State>, t: Tid, k: nat) {
    && k + 1 < |run| && t < |run[k].threads| && t < |run[k + 1].threads|
    && PcAt(run, k + 1, t) != PcAt(run, k, t)
  }

  // ------------------------------------------------------- what a writer carries

  /** The writer has m and has not published it: as its argument, or in the slot it has
      stored it in. */
  predicate Carries(sh: Shared, pc: Pc, m: Option<Mesh>) {
    match pc
    case WLockSelector(arg) => arg == m
    case WChoose(arg) => arg == m
    case WLockSlot(arg, _) => arg == m
    case WLoad(arg, _) => arg == m
    case WStore(arg, _, _) => arg == m
    case WFree(target, _) => sh.At(target).mesh == m
    case WPublish(target) => sh.At(target).mesh == m
    case _ => false
  }

  /** The writer has published. */
  predicate HasPublished(pc: Pc) { pc.WUnlockSelector? || pc.WUnlockSlot? }

  /** A step of the writer itself. */
  lemma OwnCarry(sh: Shared, t: Tid, pc: Pc, m: Option<Mesh>)
    requires pc != Idle
    ensures var e := Step(sh, t, pc);
      && e.pc != pc
      && (Carries(sh, pc, m) ==>
            if pc.WPublish? then e.shared.log == sh.log + [m] && HasPublished(e.pc)
            else e.shared.log == sh.log && Carries(e.shared, e.pc, m))
      && (HasPublished(pc) ==> e.shared.log == sh.log && (HasPublished(e.pc) || e.pc == Idle))
      && (Carries(e.shared, e.pc, m) ==> Carries(sh, pc, m))
      && (e.shared.log != sh.log ==> pc.WPublish? && e.shared.log == sh.log + [sh.At(pc.target).mesh])
  {
  }

  /** No step of another thread changes what a writer carries. */
  lemma OthersCarry(sh: Shared, t: Tid, pc: Pc, u: Tid, upc: Pc, m: Option<Mesh>)
    requires t != u && Ready(sh, pc) && OwnLocks(sh, t, pc) && OwnLocks(sh, u, upc)
    ensures Carries(Step(sh, t, pc).shared, upc, m) == Carries(sh, upc, m)
  {
    ContentEffect(sh, t, pc);
  }

  /** A thread's pc and what it carries, through one step of the system. */
  predicate CarryFacts(s: State, s': State, t: Tid, m: Option<Mesh>, calls: bool)
    requires t < |s.threads| && t < |s'.threads|
  {
    var pc, pc' := s.threads[t].pc, s'.threads[t].pc;
    && (calls ==> Carries(s'.shared, pc', m) && s'.shared.log == s.shared.log)
    && (Carries(s.shared, pc, m) ==>
          if Carries(s'.shared, pc', m) then pc' != pc ==> s'.shared.log == s.shared.log
          else pc' != pc && s'.shared.log == s.shared.log + [m] && HasPublished(pc'))
    && (HasPublished(pc) ==> pc' == pc || (s'.shared.log == s.shared.log && (HasPublished(pc') || pc' == Idle)))
    && (Carries(s'.shared, pc', m) && !Carries(s.shared, pc, m) ==> calls)
    && (Carries(s'.shared, pc', m) || HasPublished(pc') ==> pc' != Idle)
  }

  lemma CarryStep(s: State, act: Action, t: Tid, m: Option<Mesh>)
    requires Inv(s) && Enabled(s, act) && t < |s.threads|
    ensures CarryFacts(s, Apply(s, act), t, m, act == StartWrite(t, m))
  {
    if act.Advance? {
      if act.t == t {
        OwnCarry(s.shared, t, s.threads[t].pc, m);
      } else {
        OthersCarry(s.shared, act.t, s.threads[act.t].pc, t, s.threads[t].pc, m);
      }
    }
  }

  lemma CarryInRun(run: seq<State>, t: Tid, m: Option<Mesh>, k: nat)
    requires IsRun(run) && k + 1 < |run| && t < |run[0].threads|
    ensures t < |run[k].threads| == |run[k + 1].threads|
    ensures CarryFacts(run[k], run[k + 1], t, m, Calls(run, t, m, k))
  {
    ThreadsStay(run, k);
    ThreadsStay(run, k + 1);
    RunInv(run, k);
    assert Next(run[k], run[k + 1]);
    var act :| Enabled(run[k], act) && run[k + 1] == Apply(run[k], act);
    if Calls(run, t, m, k) {
      act := StartWrite(t, m);
    }
    CarryStep(run[k], act, t, m);
  }

  // ------------------------------------------------------------ what is published

  /** From state l on, where the writer carries m, to the state j in which its call is over:
      the step k that publishes m. */
  lemma {:induction false} Publishing(run: seq<State>, t: Tid, m: Option<Mesh>, l: nat, j: nat) returns (k: nat)
    requires IsRun(run) && l < j < |run| && t < |run[0].threads|
    requires t < |run[l].threads| && Carries(run[l].shared, PcAt(run, l, t), m)
    requires t < |run[j].threads| && PcAt(run, j, t) == Idle
    ensures l <= k < j && Publishes(run, m, k) && Moves(run, t, k)
    ensures t < |run[k + 1].threads| && HasPublished(PcAt(run, k + 1, t))
    ensures forall k' :: l <= k' < k && Moves(run, t, k') ==> run[k' + 1].shared.log == run[k'].shared.log
    decreases j - l
  {
    hide IsRun, Calls, Carries, HasPublished;
    CarryInRun(run, t, m, l);
    if Carries(run[l + 1].shared, PcAt(run, l + 1, t), m) {
      k := Publishing(run, t, m, l + 1, j);
    } else {
      k := l;
    }
  }

  lemma {:induction false} AfterPublishing(run: seq<State>, t: Tid, l: nat, j: nat)
    requires IsRun(run) && l < j < |run| && t < |run[0].threads|
    requires forall k :: l <= k < j ==> t < |run[k].threads| && PcAt(run, k, t) != Idle
    requires HasPublished(PcAt(run, l, t))
    ensures forall k' :: l <= k' < j && Moves(run, t, k') ==> run[k' + 1].shared.log == run[k'].shared.log
    decreases j - l
  {
    hide IsRun, Calls, Carries, HasPublished;
    CarryInRun(run, t, None, l);
    if l + 1 < j {
      AfterPublishing(run, t, l + 1, j);
    }
  }

  /** What the system's steps keep so that no mesh is published twice. */
  ghost predicate Once(s: State) {
    && (forall m :: Some(m) in s.shared.log ==> m in s.passed)
    && (forall v, w :: 0 <= v < w < |s.shared.log| && s.shared.log[v].Some? ==> s.shared.log[v] != s.shared.log[w])
    && (forall t, m :: 0 <= t < |s.threads| && Carries(s.shared, s.threads[t].pc, Some(m)) ==>
          m in s.passed && Some(m) !in s.shared.log)
    && (forall t, u, m :: 0 <= t < u < |s.threads| && Carries(s.shared, s.threads[t].pc, Some(m)) ==>
          !Carries(s.shared, s.threads[u].pc, Some(m)))
  }

  /** A step publishes what its thread carried, or nothing. */
  lemma LogStep(s: State, act: Action) returns (m: Option<Mesh>)
    requires Inv(s) && Enabled(s, act)
    ensures var s' := Apply(s, act);
      || s'.shared.log == s.shared.log
      || (&& act.Advance? && s'.shared.log == s.shared.log + [m]
          && Carries(s.shared, s.threads[act.t].pc, m) && !Carries(s'.shared, s'.threads[act.t].pc, m))
  {
    m := None;
    if act.Advance? {
      var pc := s.threads[act.t].pc;
      OwnCarry(s.shared, act.t, pc, m);
      if pc.WPublish? {
        m := s.shared.At(pc.target).mesh;
        OwnCarry(s.shared, act.t, pc, m);
      }
    }
  }

  lemma OnceStep(s: State, act: Action)
    requires Inv(s) && Once(s) && Enabled(s, act)
    ensures Once(Apply(s, act))
  {
    var s' := Apply(s, act);
    var x := LogStep(s, act);
    forall t, m | 0 <= t < |s'.threads| && Carries(s'.shared, s'.threads[t].pc, Some(m))
      ensures m in s'.passed && Some(m) !in s'.shared.log
    {
      CarryStep(s, act, t, Some(m));
      if act.Advance? && x == Some(m) {
        CarryStep(s, act, act.t, Some(m));
      }
    }
    forall t, u, m | 0 <= t < u < |s'.threads| && Carries(s'.shared, s'.threads[t].pc, Some(m))
      ensures !Carries(s'.shared, s'.threads[u].pc, Some(m))
    {
      CarryStep(s, act, t, Some(m));
      CarryStep(s, act, u, Some(m));
    }
  }

  lemma NothingOnce(n: nat)
    ensures Once(Initial(n))
  {
  }

  lemma {:induction false} OnceInRun(run: seq<State>, i: nat)
    requires IsRun(run) && i < |run|
    ensures Once(run[i])
  {
    hide Once, Inv, Apply, Enabled;
    if i == 0 {
      NothingOnce(|run[0].threads|);
    } else {
      OnceInRun(run, i - 1);
      RunInv(run, i - 1);
      assert Next(run[i - 1], run[i - 1 + 1]);
      var act :| Enabled(run[i - 1], act) && run[i] == Apply(run[i - 1], act);
      OnceStep(run[i - 1], act);
    }
  }

  lemma LastIsNew(s: State, v: nat, m: Mesh)
    requires Once(s) && v < |s.shared.log| - 1 && s.shared.log[v] == Some(m)
    ensures s.shared.log[|s.shared.log| - 1] != Some(m)
  {
  }

  lemma OnlyOnce(run: seq<State>, m: Mesh, t: Tid, k: nat, k': nat)
    requires IsRun(run) && t < |run[0].threads| && k < k'
    requires Publishes(run, Some(m), k)
    ensures !Publishes(run, Some(m), k')
  {
    hide Once, IsRun, RunFacts;
    if Publishes(run, Some(m), k') {
      FactsOfRun(run, t);
      LogGrows(run, t, k + 1, k');
      OnceInRun(run, k' + 1);
      LastIsNew(run[k' + 1], |run[k].shared.log|, m);
    }
  }

  /**
   A call of write_double_buffer publishes its argument: exactly one of its own steps changes
   the log, and that step adds the argument. And no other step of the run, of any thread,
   publishes that mesh.
   */
  lemma WritePublishes(run: seq<State>, t: Tid, m: Option<Mesh>, i: nat, j: nat) returns (k: nat)
    requires IsRun(run) && WriteCall(run, t, m, i, j)
    ensures i < k < j && Publishes(run, m, k) && Moves(run, t, k)
    ensures forall k' :: i < k' < j && k' != k && Moves(run, t, k') ==> run[k' + 1].shared.log == run[k'].shared.log
    ensures m.Some? ==> forall k' :: Publishes(run, m, k') <==> k' == k
  {
    ThreadsStay(run, i);
    ThreadsStay(run, j);
    CarryInRun(run, t, m, i);
    k := Publishing(run, t, m, i + 1, j);
    if k + 1 < j {
      AfterPublishing(run, t, k + 1, j);
    }
    if m.Some? {
      forall k': nat | Publishes(run, m, k') ensures k' == k {
        if k' < k {
          OnlyOnce(run, m.value, t, k', k);
        } else if k < k' {
          OnlyOnce(run, m.value, t, k, k');
        }
      }
    }
  }

  lemma NothingCarried(run: seq<State>, t: Tid, m: Option<Mesh>)
    requires IsRun(run) && t < |run[0].threads|
    ensures !Carries(run[0].shared, PcAt(run, 0, t), m)
  {
  }

  lemma {:induction false} CarriedSince(run: seq<State>, t: Tid, m: Option<Mesh>, k: nat) returns (i: nat)
    requires IsRun(run) && k < |run| && t < |run[0].threads| && t < |run[k].threads|
    requires Carries(run[k].shared, PcAt(run, k, t), m)
    ensures Calls(run, t, m, i) && Inside(run, t, i, k)
  {
    hide IsRun, Calls, Carries, HasPublished;
    NothingCarried(run, t, m);
    CarryInRun(run, t, m, k - 1);
    if Carries(run[k - 1].shared, PcAt(run, k - 1, t), m) {
      i := CarriedSince(run, t, m, k - 1);
    } else {
      i := k - 1;
    }
  }

  /** Nothing else is ever published: whatever step changes the log is taken by a thread in a
      call of write_double_buffer, and adds that call's argument. */
  lemma OnlyWritesPublish(run: seq<State>, k: nat) returns (t: Tid, m: Option<Mesh>, i: nat)
    requires IsRun(run) && k + 1 < |run| && run[k + 1].shared.log != run[k].shared.log
    ensures Publishes(run, m, k) && Moves(run, t, k)
    ensures Calls(run, t, m, i) && Inside(run, t, i, k)
  {
    RunInv(run, k);
    ThreadsStay(run, k);
    assert Next(run[k], run[k + 1]);
    var act :| Enabled(run[k], act) && run[k + 1] == Apply(run[k], act);
    m := LogStep(run[k], act);
    t := act.t;
    CarryStep(run[k], act, t, m);
    i := CarriedSince(run, t, m, k);
  }

  lemma LaterCopy(run: seq<State>, t: Tid, i: nat, j: nat, k: nat)
    requires IsRun(run) && Returns(run, t, j) && CallFrom(run, t, i, j) && k < i
    ensures run[k + 1].shared.log <= run[j].shared.log
    ensures var copy := Returned(run, t, j);
      && |run[k + 1].shared.log| - 1 <= copy.version
      && 0 <= copy.version < |run[j].shared.log| && copy.mesh == run[j].shared.log[copy.version]
  {
    ThreadsStay(run, j);
    FactsOfRun(run, t);
    hide IsRun, RunFacts;
    assert StepFacts(run, t, j) by { StepFact(run, t, j); }
    SinceIsFixed(run, t, i, j);
    LogGrows(run, t, k + 1, i);
    LogGrows(run, t, i, j);
  }

  lemma StepFact(run: seq<State>, t: Tid, j: nat)
    requires RunFacts(run, t) && j + 1 < |run|
    ensures StepFacts(run, t, j)
  {
  }

  // ------------------------------------------------------------- copies that return

  /** Thread t calls copy_world_mesh in state i and is first out of it in state j. */
  ghost predicate CopyCall(run: seq<State>, t: Tid, i: nat, j: nat) {
    && i + 1 < j < |run| && t < |run[j].threads|
    && Enabled(run[i], StartCopy(t)) && run[i + 1] == Apply(run[i], StartCopy(t))
    && Inside(run, t, i, j - 1) && PcAt(run, j, t) == Idle
  }

  predicate Reading(pc: Pc) { pc != Idle && !Writing(pc) }

  /** A reader stays one until it is out, and with that step it returns a copy. */
  predicate ReadFacts(s: State, s': State, t: Tid)
    requires t < |s.threads| && t < |s'.threads|
  {
    var th, th' := s.threads[t], s'.threads[t];
    Reading(th.pc) ==>
      && (th'.pc == Idle || Reading(th'.pc))
      && |th'.done| == |th.done| + if th'.pc == Idle then 1 else 0
  }

  lemma ReadEffect(sh: Shared, t: Tid, pc: Pc)
    requires Reading(pc)
    ensures var e := Step(sh, t, pc);
      (e.pc == Idle || Reading(e.pc)) && (e.result.Some? <==> e.pc == Idle)
  {
  }

  lemma ReadInRun(run: seq<State>, t: Tid, k: nat)
    requires IsRun(run) && k + 1 < |run| && t < |run[0].threads|
    ensures t < |run[k].threads| == |run[k + 1].threads|
    ensures ReadFacts(run[k], run[k + 1], t)
  {
    ThreadsStay(run, k);
    ThreadsStay(run, k + 1);
    assert Next(run[k], run[k + 1]);
    var act :| Enabled(run[k], act) && run[k + 1] == Apply(run[k], act);
    if act == Advance(t) && Reading(run[k].threads[t].pc) {
      ReadEffect(run[k].shared, t, run[k].threads[t].pc);
    }
  }

  lemma {:induction false} StaysReading(run: seq<State>, t: Tid, l: nat, k: nat)
    requires IsRun(run) && l <= k < |run| && t < |run[0].threads|
    requires forall n :: l <= n <= k ==> t < |run[n].threads| && PcAt(run, n, t) != Idle
    requires Reading(PcAt(run, l, t))
    ensures Reading(PcAt(run, k, t))
    ensures forall n :: l <= n < k ==> !Returns(run, t, n)
  {
    hide IsRun, Reading;
    if l < k {
      StaysReading(run, t, l, k - 1);
      ReadInRun(run, t, k - 1);
    }
  }

  lemma CopyStarts(run: seq<State>, t: Tid, i: nat, j: nat)
    requires IsRun(run) && CopyCall(run, t, i, j)
    ensures t < |run[0].threads| && t < |run[i].threads| && PcAt(run, i, t) == Idle && !Returns(run, t, i)
    ensures forall k :: i < k < j ==> t < |run[k].threads| && PcAt(run, k, t) != Idle
    ensures Reading(PcAt(run, i + 1, t))
  {
    ThreadsStay(run, i);
  }

  /** Every call of copy_world_mesh returns exactly one copy, with its last step, and has read
      `read_buffer` once before: the theorems about returned copies are about every call. */
  lemma CopyReturns(run: seq<State>, t: Tid, i: nat, j: nat) returns (s: nat)
    requires IsRun(run) && CopyCall(run, t, i, j)
    ensures forall k :: i <= k < j ==> (Returns(run, t, k) <==> k == j - 1)
    ensures i < s && CallFrom(run, t, s, j - 1)
  {
    hide IsRun, RunFacts, Apply, Enabled, Reading, Inside;
    CopyStarts(run, t, i, j);
    StaysReading(run, t, i + 1, j - 1);
    ReadInRun(run, t, j - 1);
    FactsOfRun(run, t);
    StepFact(run, t, j - 1);
    s := CallBegins(run, t, j - 1);
  }

  /** The copy that t returns with the step from state j is of the mesh m published with the
      step from state k, or of one published later. */
  predicate Sees(run: seq<State>, k: nat, m: Option<Mesh>, t: Tid, j: nat) {
    && k < |run| && Returns(run, t, j)
    && var copy, v, log := Returned(run, t, j), |run[k].shared.log|, run[j].shared.log;
       && v <= copy.version < |log| && log[v] == m && copy.mesh == log[copy.version]
       && (copy.version == v ==> copy.mesh == m)
  }

  /**
   A copy that begins after a write has returned sees it: it is of the mesh that was written,
   or of one that was published later.
   */
  lemma WriteIsSeen(run: seq<State>, t: Tid, m: Option<Mesh>, i: nat, j: nat, t': Tid, i': nat, j': nat)
      returns (k: nat)
    requires IsRun(run) && WriteCall(run, t, m, i, j)
    requires CopyCall(run, t', i', j') && j <= i'
    ensures i < k < j && Publishes(run, m, k) && Sees(run, k, m, t', j' - 1)
  {
    hide IsRun, WriteCall, CallFrom, Returns, Apply, Enabled, Inside;
    k := WritePublishes(run, t, m, i, j);
    var s := CopyReturns(run, t', i', j');
    LaterCopy(run, t', s, j' - 1, k);
    CopyStarts(run, t', i', j');
  }

  // ----------------------------------------------------------------- what is freed

  /** m was published, and another publication came after. */
  predicate Superseded(log: seq<Option<Mesh>>, m: Mesh) {
    exists v :: 0 <= v < |log| - 1 && log[v] == Some(m)
  }

  /** So were the freed meshes and those a writer is about to free. */
  ghost predicate FreesOld(s: State) {
    && (forall m :: s.shared.freed[m] > 0 ==> Superseded(s.shared.log, m))
    && (forall t, m :: 0 <= t < |s.threads| && Frees(s.threads[t].pc, m) ==> Superseded(s.shared.log, m))
  }

  predicate Frees(pc: Pc, m: Mesh) { pc.WFree? && pc.prior == Some(m) }

  /** What a writer finds in the slot it overwrites is not the newest mesh. */
  lemma PriorIsOld(s: State, t: Tid, m: Mesh)
    requires Inv(s) && t < |s.threads|
    requires s.threads[t].pc.WStore? && s.threads[t].pc.prior == Some(m)
    ensures Superseded(s.shared.log, m)
  {
    assert OwnLocks(s.shared, t, s.threads[t].pc) && PcOk(s.shared, s.threads[t].pc);
    assert !MidWrite(s);
    assert s.shared.log[s.shared.Newest() - 1] == Some(m);
  }

  lemma StaysSuperseded(log: seq<Option<Mesh>>, log': seq<Option<Mesh>>, m: Mesh)
    requires log <= log' && Superseded(log, m)
    ensures Superseded(log', m)
  {
    var v :| 0 <= v < |log| - 1 && log[v] == Some(m);
    assert log'[v] == log[v];
  }

  lemma FreeEffect(sh: Shared, t: Tid, pc: Pc, m: Mesh)
    requires pc != Idle
    ensures var e := Step(sh, t, pc);
      && sh.log <= e.shared.log
      && (e.shared.freed[m] > sh.freed[m] ==> Frees(pc, m))
      && (Frees(e.pc, m) ==> pc.WStore? && pc.prior == Some(m))
  {
  }

  lemma FreesOldStep(s: State, act: Action)
    requires Inv(s) && FreesOld(s) && Enabled(s, act)
    ensures FreesOld(Apply(s, act))
  {
    hide Step, Inv;
    if act.Advance? {
      var s' := Apply(s, act);
      forall m ensures s'.shared.freed[m] > 0 ==> Superseded(s'.shared.log, m) {
        FreeEffect(s.shared, act.t, s.threads[act.t].pc, m);
        if s'.shared.freed[m] > 0 {
          StaysSuperseded(s.shared.log, s'.shared.log, m);
        }
      }
      forall t, m | 0 <= t < |s'.threads| && Frees(s'.threads[t].pc, m) ensures Superseded(s'.shared.log, m) {
        FreeEffect(s.shared, act.t, s.threads[act.t].pc, m);
        if t == act.t {
          PriorIsOld(s, t, m);
        }
        StaysSuperseded(s.shared.log, s'.shared.log, m);
      }
    }
  }

  lemma NothingFreed(n: nat)
    ensures FreesOld(Initial(n))
  {
  }

  lemma {:induction false} FreesOldInRun(run: seq<State>, i: nat)
    requires IsRun(run) && i < |run|
    ensures FreesOld(run[i])
  {
    hide FreesOld, Inv, Apply, Enabled;
    if i == 0 {
      NothingFreed(|run[0].threads|);
    } else {
      FreesOldInRun(run, i - 1);
      RunInv(run, i - 1);
      assert Next(run[i - 1], run[i - 1 + 1]);
      var act :| Enabled(run[i - 1], act) && run[i] == Apply(run[i - 1], act);
      FreesOldStep(run[i - 1], act);
    }
  }

  /** No mesh is freed before it was published and another one was published after it. */
  lemma FreedWasSuperseded(run: seq<State>, i: nat, m: Mesh)
    requires IsRun(run) && i < |run| && run[i].shared.freed[m] > 0
    ensures Superseded(run[i].shared.log, m)
  {
    FreesOldInRun(run, i);
    hide IsRun;
  }
}
