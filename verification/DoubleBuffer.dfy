/**
 The double buffer through which world meshes reach the renderer
 (include/game_data.h).

 Any number of threads run `write_double_buffer` and `copy_world_mesh` in any
 order and interleaving. Every lock, unlock, load, store and free is a step of
 its own, so a thread may be suspended between any two of them.

 `log`, `version`, `since` and `done` are history: no step's guard and no
 step's effect on the program's own variables reads them.
 */
module DoubleBuffer {
  import opened Prelude

  type Mesh = nat  // a world mesh; where its address is used again, that is another mesh
  type Tid = nat   // an index into the sequence of threads

  /** One side of the buffer: its mesh pointer and its mutex.
      `version` is the number of the publication its mesh belongs to. */
  datatype Slot = Slot(mesh: Option<Mesh>, owner: Option<Tid>, version: int)

  /** The double_buffer_t, the log of all published meshes (oldest first) and
      one entry in `freed` for each mesh given to free_world_mesh. */
  datatype Shared = Shared(
    a: Slot,
    b: Slot,
    readBuffer: bool,               // true names slot a, false slot b
    selector: Option<Tid>,
    log: seq<Option<Mesh>>,
    freed: multiset<Mesh>)
  {
    function At(side: bool): Slot { if side then a else b }

    function With(side: bool, slot: Slot): Shared {
      if side then this.(a := slot) else this.(b := slot)
    }

    function Locked(side: bool, t: Tid): Shared { With(side, At(side).(owner := Some(t))) }

    function Unlocked(side: bool): Shared { With(side, At(side).(owner := None)) }

    /** The mesh a reader is meant to see: the one in the slot `read_buffer` names. */
    function Published(): Option<Mesh> { At(readBuffer).mesh }

    /** The number of the newest publication. */
    function Newest(): int { |log| - 1 }
  }

  /** Where a thread is, named after the step it takes next. */
  datatype Pc =
    | Idle
      // write_double_buffer
    | WLockSelector(arg: Option<Mesh>)
    | WChoose(arg: Option<Mesh>)
    | WLockSlot(arg: Option<Mesh>, target: bool)
    | WLoad(arg: Option<Mesh>, target: bool)
    | WStore(arg: Option<Mesh>, target: bool, prior: Option<Mesh>)
    | WFree(target: bool, prior: Option<Mesh>)
    | WPublish(target: bool)
    | WUnlockSelector(target: bool)
    | WUnlockSlot(target: bool)
      // copy_world_mesh
    | RLockSelector
    | RSelect
    | RUnlockSelector(target: bool, since: int)
    | RLockSlot(target: bool, since: int)
    | RLoad(target: bool, since: int)
    | RTest(target: bool, since: int, src: Option<Mesh>, version: int)
    | RCopy(target: bool, since: int, src: Option<Mesh>, version: int, layers: nat)
    | RUnlockSlot(target: bool, since: int, src: Option<Mesh>, version: int)

  /** A finished `copy_world_mesh`: the mesh it copied, that mesh's version, and
      the newest version at the call's selector read and at its slot unlock. */
  datatype Copy = Copy(mesh: Option<Mesh>, version: int, since: int, until: int)

  datatype Thread = Thread(pc: Pc, done: seq<Copy>)

  /** `passed` holds every mesh ever given to write_double_buffer. */
  datatype State = State(shared: Shared, threads: seq<Thread>, passed: set<Mesh>)

  function Initial(threads: nat): State {
    State(Shared(Slot(None, None, -1), Slot(None, None, 0), false, None, [None], multiset{}),
          seq(threads, _ => Thread(Idle, [])), {})
  }

  // ------------------------------------------------------------------ steps

  /** What one step does: the new shared state, where the thread is next, and the
      copy it returns if this step ends a call of `copy_world_mesh`. */
  datatype Effect = Effect(shared: Shared, pc: Pc, result: Option<Copy>)

  /** A lock step waits for its mutex; every other step can always be taken. */
  predicate Ready(sh: Shared, pc: Pc) {
    match pc
    case Idle => false
    case WLockSelector(_) => sh.selector.None?
    case RLockSelector => sh.selector.None?
    case WLockSlot(_, target) => sh.At(target).owner.None?
    case RLockSlot(target, _) => sh.At(target).owner.None?
    case _ => true
  }

  function Bag(m: Option<Mesh>): multiset<Mesh> {
    if m.Some? then multiset{m.value} else multiset{}
  }

  predicate Writing(pc: Pc) {
    || pc.WLockSelector? || pc.WChoose? || pc.WLockSlot? || pc.WLoad? || pc.WStore? || pc.WFree?
    || pc.WPublish? || pc.WUnlockSelector? || pc.WUnlockSlot?
  }

  function WriteStep(sh: Shared, t: Tid, pc: Pc): Effect
    requires Writing(pc)
  {
    match pc
    case WLockSelector(arg) => Effect(sh.(selector := Some(t)), WChoose(arg), None)
    case WChoose(arg) => Effect(sh, WLockSlot(arg, !sh.readBuffer), None)
    case WLockSlot(arg, target) => Effect(sh.Locked(target, t), WLoad(arg, target), None)
    case WLoad(arg, target) => Effect(sh, WStore(arg, target, sh.At(target).mesh), None)
    case WStore(arg, target, prior) =>
      Effect(sh.With(target, sh.At(target).(mesh := arg, version := |sh.log|)), WFree(target, prior), None)
    case WFree(target, prior) => Effect(sh.(freed := sh.freed + Bag(prior)), WPublish(target), None)
    case WPublish(target) =>
      Effect(sh.(readBuffer := target, log := sh.log + [sh.At(target).mesh]), WUnlockSelector(target), None)
    case WUnlockSelector(target) => Effect(sh.(selector := None), WUnlockSlot(target), None)
    case WUnlockSlot(target) => Effect(sh.Unlocked(target), Idle, None)
  }

  function ReadStep(sh: Shared, t: Tid, pc: Pc): Effect
    requires !Writing(pc) && pc != Idle
  {
    match pc
    case RLockSelector => Effect(sh.(selector := Some(t)), RSelect, None)
    case RSelect => Effect(sh, RUnlockSelector(sh.readBuffer, sh.Newest()), None)
    case RUnlockSelector(target, since) => Effect(sh.(selector := None), RLockSlot(target, since), None)
    case RLockSlot(target, since) => Effect(sh.Locked(target, t), RLoad(target, since), None)
    case RLoad(target, since) =>
      Effect(sh, RTest(target, since, sh.At(target).mesh, sh.At(target).version), None)
    case RTest(target, since, src, version) =>
      if src.None? then Leave(sh, target, since, src, version)
      else Effect(sh, RCopy(target, since, src, version, LAYERS), None)
    case RCopy(target, since, src, version, layers) =>
      Effect(sh, if layers == 0 then RUnlockSlot(target, since, src, version)
                 else RCopy(target, since, src, version, layers - 1), None)
    case RUnlockSlot(target, since, src, version) => Leave(sh, target, since, src, version)
  }

  /** The reader unlocks its slot and returns. */
  function Leave(sh: Shared, target: bool, since: int, src: Option<Mesh>, version: int): Effect {
    Effect(sh.Unlocked(target), Idle, Some(Copy(src, version, since, sh.Newest())))
  }

  function Step(sh: Shared, t: Tid, pc: Pc): Effect
    requires pc != Idle
  {
    if Writing(pc) then WriteStep(sh, t, pc) else ReadStep(sh, t, pc)
  }

  datatype Action =
    | StartWrite(t: Tid, mesh: Option<Mesh>)
    | StartCopy(t: Tid)
    | Advance(t: Tid)

  /** A mesh given to write_double_buffer is fresh: nobody gave it before. */
  predicate Enabled(s: State, act: Action) {
    && act.t < |s.threads|
    && match act
       case StartWrite(t, mesh) =>
         s.threads[t].pc.Idle? && (mesh.Some? ==> mesh.value !in s.passed)
       case StartCopy(t) => s.threads[t].pc.Idle?
       case Advance(t) => Ready(s.shared, s.threads[t].pc)
  }

  function Apply(s: State, act: Action): State
    requires Enabled(s, act)
  {
    var th := s.threads[act.t];
    match act
    case StartWrite(t, mesh) =>
      State(s.shared, s.threads[t := th.(pc := WLockSelector(mesh))],
            s.passed + if mesh.Some? then {mesh.value} else {})
    case StartCopy(t) => s.(threads := s.threads[t := th.(pc := RLockSelector)])
    case Advance(t) =>
      var e := Step(s.shared, t, th.pc);
      var done := if e.result.Some? then th.done + [e.result.value] else th.done;
      State(e.shared, s.threads[t := Thread(e.pc, done)], s.passed)
  }

  ghost predicate Next(s: State, s': State) {
    exists act :: Enabled(s, act) && s' == Apply(s, act)
  }

  /** A run: an initial state, then one step after another. */
  ghost predicate IsRun(run: seq<State>) {
    && |run| > 0
    && run[0] == Initial(|run[0].threads|)
    && forall i: nat :: i + 1 < |run| ==> Next(run[i], run[i + 1])
  }

  // -------------------------------------------------------------- invariant

  /** The thread is between locking and unlocking the selector. */
  predicate InSelector(pc: Pc) {
    || pc.WChoose? || pc.WLockSlot? || pc.WLoad? || pc.WStore? || pc.WFree? || pc.WPublish?
    || pc.WUnlockSelector? || pc.RSelect? || pc.RUnlockSelector?
  }

  /** The thread is between locking and unlocking the slot on this side. */
  predicate InSlot(pc: Pc, side: bool) {
    && (|| pc.WLoad? || pc.WStore? || pc.WFree? || pc.WPublish? || pc.WUnlockSelector?
        || pc.WUnlockSlot? || pc.RLoad? || pc.RTest? || pc.RCopy? || pc.RUnlockSlot?)
    && pc.target == side
  }

  /** The writer is between its store and its publication. */
  predicate Stored(pc: Pc) { pc.WFree? || pc.WPublish? }

  /** A thread owns exactly the mutexes its program counter says. */
  predicate OwnLocks(sh: Shared, t: Tid, pc: Pc) {
    && (InSelector(pc) <==> sh.selector == Some(t))
    && (InSlot(pc, true) <==> sh.a.owner == Some(t))
    && (InSlot(pc, false) <==> sh.b.owner == Some(t))
  }

  ghost predicate Locks(s: State) {
    && (s.shared.selector.Some? ==> s.shared.selector.value < |s.threads|)
    && (s.shared.a.owner.Some? ==> s.shared.a.owner.value < |s.threads|)
    && (s.shared.b.owner.Some? ==> s.shared.b.owner.value < |s.threads|)
    && forall t :: 0 <= t < |s.threads| ==> OwnLocks(s.shared, t, s.threads[t].pc)
  }

  /** The selector's owner has stored a mesh and not yet published it. */
  predicate MidWrite(s: State) {
    && s.shared.selector.Some?
    && s.shared.selector.value < |s.threads|
    && Stored(s.threads[s.shared.selector.value].pc)
  }

  /** The slot that is read holds the newest version. The other one holds the
      version before it, or the one about to be published. */
  predicate Versions(sh: Shared, mid: bool) {
    var n := sh.Newest();
    var other := sh.At(!sh.readBuffer);
    && n >= 0
    && sh.At(sh.readBuffer).version == n
    && sh.Published() == sh.log[n]
    && if mid then other.version == n + 1
       else other.version == n - 1 && other.mesh == if n == 0 then None else sh.log[n - 1]
  }

  /** What a thread's own variables say about the shared state. */
  predicate PcOk(sh: Shared, pc: Pc) {
    match pc
    case WLockSlot(_, target) => target == !sh.readBuffer
    case WLoad(_, target) => target == !sh.readBuffer
    case WStore(_, target, prior) => target == !sh.readBuffer && sh.At(target).mesh == prior
    case WFree(target, _) => target == !sh.readBuffer
    case WPublish(target) => target == !sh.readBuffer
    case RUnlockSelector(target, since) => 0 <= since <= sh.Newest() && since <= sh.At(target).version
    case RLockSlot(target, since) => 0 <= since <= sh.Newest() && since <= sh.At(target).version
    case RLoad(target, since) => 0 <= since <= sh.Newest() && since <= sh.At(target).version
    case RTest(target, since, src, version) => Holding(sh, target, since, src, version)
    case RCopy(target, since, src, version, layers) =>
      Holding(sh, target, since, src, version) && src.Some? && layers <= LAYERS
    case RUnlockSlot(target, since, src, version) => Holding(sh, target, since, src, version)
    case _ => true
  }

  /** A reader that has loaded the pointer of the slot it has locked. */
  predicate Holding(sh: Shared, target: bool, since: int, src: Option<Mesh>, version: int) {
    && sh.At(target).mesh == src
    && sh.At(target).version == version
    && 0 <= since <= version
  }

  /** The reader has read `read_buffer` and has not returned. */
  predicate Selected(pc: Pc) {
    || pc.RUnlockSelector? || pc.RLockSlot? || pc.RLoad? || pc.RTest? || pc.RCopy? || pc.RUnlockSlot?
  }

  predicate CopyOk(sh: Shared, c: Copy) {
    && 0 <= c.since <= c.version <= c.until <= sh.Newest()
    && c.until - 1 <= c.version
    && c.mesh == sh.log[c.version]
  }

  function Is(o: Option<Mesh>, m: Mesh): nat { if o == Some(m) then 1 else 0 }

  /** How often m is among the meshes only this thread still knows: an argument not
      yet stored, or an old mesh taken out of its slot and not yet freed. */
  function InHand(pc: Pc, m: Mesh): nat {
    match pc
    case WLockSelector(arg) => Is(arg, m)
    case WChoose(arg) => Is(arg, m)
    case WLockSlot(arg, _) => Is(arg, m)
    case WLoad(arg, _) => Is(arg, m)
    case WStore(arg, _, _) => Is(arg, m)
    case WFree(_, prior) => Is(prior, m)
    case _ => 0
  }

  function InHands(threads: seq<Thread>, m: Mesh): nat {
    if threads == [] then 0 else InHand(threads[0].pc, m) + InHands(threads[1..], m)
  }

  function Placed(sh: Shared, m: Mesh): nat {
    sh.freed[m] + Is(sh.a.mesh, m) + Is(sh.b.mesh, m)
  }

  /** A mesh that was passed in is in exactly one hand, or in exactly one slot, or
      freed exactly once; no other mesh is anywhere. */
  predicate Conserved(s: State, m: Mesh) {
    Placed(s.shared, m) + InHands(s.threads, m) == if m in s.passed then 1 else 0
  }

  ghost predicate Inv(s: State) {
    && Locks(s)
    && Versions(s.shared, MidWrite(s))
    && (forall t :: 0 <= t < |s.threads| ==> PcOk(s.shared, s.threads[t].pc))
    && (forall m :: Conserved(s, m))
  }

  // ------------------------------------------- the invariant, step by step

  /** How a mutex's owner changes when thread t moves from outside or inside its
      critical section (`before`) to outside or inside (`after`). */
  predicate Moves(owner: Option<Tid>, owner': Option<Tid>, t: Tid, before: bool, after: bool) {
    && owner' == (if after then Some(t) else if before then None else owner)
    && (after ==> before || owner.None?)
  }

  /** A step takes a mutex only when it is free and gives back only what it holds. */
  lemma LockEffect(sh: Shared, t: Tid, pc: Pc)
    requires Ready(sh, pc) && OwnLocks(sh, t, pc)
    ensures var e := Step(sh, t, pc);
      && Moves(sh.selector, e.shared.selector, t, InSelector(pc), InSelector(e.pc))
      && Moves(sh.a.owner, e.shared.a.owner, t, InSlot(pc, true), InSlot(e.pc, true))
      && Moves(sh.b.owner, e.shared.b.owner, t, InSlot(pc, false), InSlot(e.pc, false))
  {
  }

  lemma LocksStep(s: State, act: Action)
    requires Locks(s) && Enabled(s, act)
    ensures Locks(Apply(s, act))
  {
    if act.Advance? {
      LockEffect(s.shared, act.t, s.threads[act.t].pc);
    }
  }

  /** Slots, selection and history change only in the store and publish steps. */
  lemma ContentEffect(sh: Shared, t: Tid, pc: Pc)
    requires pc != Idle
    ensures var sh' := Step(sh, t, pc).shared;
      && (if pc.WPublish? then sh'.readBuffer == pc.target && sh'.log == sh.log + [sh.At(pc.target).mesh]
          else sh'.readBuffer == sh.readBuffer && sh'.log == sh.log)
      && (!(pc.WStore? && pc.target) ==> sh'.a.mesh == sh.a.mesh && sh'.a.version == sh.a.version)
      && (!(pc.WStore? && !pc.target) ==> sh'.b.mesh == sh.b.mesh && sh'.b.version == sh.b.version)
      && (pc.WStore? ==> sh'.At(pc.target).mesh == pc.arg && sh'.At(pc.target).version == |sh.log|)
  {
  }

  lemma VersionsEffect(sh: Shared, t: Tid, pc: Pc, mid: bool)
    requires Ready(sh, pc) && Versions(sh, mid) && PcOk(sh, pc)
    requires InSelector(pc) ==> mid == Stored(pc)
    requires !InSelector(pc) && sh.selector.None? ==> !mid
    ensures var e := Step(sh, t, pc);
      Versions(e.shared, if InSelector(pc) || InSelector(e.pc) then Stored(e.pc) else mid)
  {
    ContentEffect(sh, t, pc);
  }

  lemma MidWriteStep(s: State, act: Action)
    requires Locks(s) && Enabled(s, act) && act.Advance?
    ensures var pc, pc' := s.threads[act.t].pc, Apply(s, act).threads[act.t].pc;
      MidWrite(Apply(s, act)) ==
      if InSelector(pc) || InSelector(pc') then Stored(pc') else MidWrite(s)
  {
    LockEffect(s.shared, act.t, s.threads[act.t].pc);
  }

  lemma VersionsStep(s: State, act: Action)
    requires Inv(s) && Enabled(s, act)
    ensures Versions(Apply(s, act).shared, MidWrite(Apply(s, act)))
  {
    if act.Advance? {
      MidWriteStep(s, act);
      VersionsEffect(s.shared, act.t, s.threads[act.t].pc, MidWrite(s));
    }
  }

  lemma OwnPcEffect(sh: Shared, t: Tid, pc: Pc, mid: bool)
    requires Ready(sh, pc) && Versions(sh, mid) && PcOk(sh, pc)
    ensures PcOk(Step(sh, t, pc).shared, Step(sh, t, pc).pc)
  {
  }

  /** No step of thread t invalidates what thread u knows. */
  lemma OtherPcEffect(sh: Shared, t: Tid, pc: Pc, u: Tid, upc: Pc, mid: bool)
    requires t != u && Ready(sh, pc) && OwnLocks(sh, t, pc) && OwnLocks(sh, u, upc)
    requires Versions(sh, mid) && PcOk(sh, pc) && PcOk(sh, upc)
    ensures PcOk(Step(sh, t, pc).shared, upc)
  {
    ContentEffect(sh, t, pc);
  }

  lemma PcStep(s: State, act: Action, u: Tid)
    requires Inv(s) && Enabled(s, act) && u < |s.threads|
    ensures PcOk(Apply(s, act).shared, Apply(s, act).threads[u].pc)
  {
    if act.Advance? {
      if u == act.t {
        OwnPcEffect(s.shared, act.t, s.threads[act.t].pc, MidWrite(s));
      } else {
        OtherPcEffect(s.shared, act.t, s.threads[act.t].pc, u, s.threads[u].pc, MidWrite(s));
      }
    }
  }

  /** A slot that a reader has locked is not one a writer is in the middle of. */
  lemma ReadersSlot(s: State, t: Tid)
    requires Inv(s) && t < |s.threads|
    requires !Writing(s.threads[t].pc) && InSlot(s.threads[t].pc, !s.shared.readBuffer)
    ensures !MidWrite(s)
  {
  }

  lemma CopyEffect(sh: Shared, t: Tid, pc: Pc, mid: bool)
    requires Ready(sh, pc) && Versions(sh, mid) && PcOk(sh, pc)
    requires !Writing(pc) && InSlot(pc, !sh.readBuffer) ==> !mid
    ensures var e := Step(sh, t, pc);
      && (e.result.Some? ==> CopyOk(sh, e.result.value) && Selected(pc) && e.result.value.since == pc.since
                             && e.pc.Idle?)
      && (Selected(e.pc) ==> if pc.RSelect? then e.pc.since == sh.Newest() else Selected(pc) && e.pc.since == pc.since)
  {
  }

  lemma {:induction false} InHandsUpdate(threads: seq<Thread>, t: Tid, th: Thread, m: Mesh)
    requires t < |threads|
    ensures InHands(threads[t := th], m) + InHand(threads[t].pc, m) == InHands(threads, m) + InHand(th.pc, m)
  {
    if t == 0 {
      assert threads[0 := th][1..] == threads[1..];
    } else {
      InHandsUpdate(threads[1..], t - 1, th, m);
      assert threads[t := th][1..] == threads[1..][t - 1 := th];
    }
  }

  /** A step moves meshes between hand, slots and the freed ones; it loses none. */
  lemma PlacedEffect(sh: Shared, t: Tid, pc: Pc, m: Mesh)
    requires Ready(sh, pc) && PcOk(sh, pc)
    ensures var e := Step(sh, t, pc);
      Placed(e.shared, m) + InHand(e.pc, m) == Placed(sh, m) + InHand(pc, m)
  {
  }

  lemma ConservedStep(s: State, act: Action, m: Mesh)
    requires Inv(s) && Enabled(s, act)
    ensures Conserved(Apply(s, act), m)
  {
    var s' := Apply(s, act);
    assert Conserved(s, m);
    InHandsUpdate(s.threads, act.t, s'.threads[act.t], m);
    if act.Advance? {
      PlacedEffect(s.shared, act.t, s.threads[act.t].pc, m);
    }
  }

  lemma {:induction false} InHandsOfIdle(n: nat, m: Mesh)
    ensures InHands(seq(n, _ => Thread(Idle, [])), m) == 0
  {
    var th := Thread(Idle, []);
    if n > 0 {
      InHandsOfIdle(n - 1, m);
      assert seq(n, _ => th)[1..] == seq(n - 1, _ => th);
    }
  }

  lemma InitialInv(n: nat)
    ensures Inv(Initial(n))
  {
    forall m ensures Conserved(Initial(n), m) {
      InHandsOfIdle(n, m);
    }
  }

  lemma InvStep(s: State, act: Action)
    requires Inv(s) && Enabled(s, act)
    ensures Inv(Apply(s, act))
  {
    LocksStep(s, act);
    VersionsStep(s, act);
    forall u | 0 <= u < |s.threads|
      ensures PcOk(Apply(s, act).shared, Apply(s, act).threads[u].pc)
    {
      PcStep(s, act, u);
    }
    forall m ensures Conserved(Apply(s, act), m) {
      ConservedStep(s, act, m);
    }
  }

  /** Whatever the number of threads and however they interleave. */
  lemma {:induction false} RunInv(run: seq<State>, i: nat)
    requires IsRun(run) && i < |run|
    ensures Inv(run[i])
  {
    if i == 0 {
      InitialInv(|run[0].threads|);
    } else {
      RunInv(run, i - 1);
      assert Next(run[i - 1], run[i - 1 + 1]);
      var act :| Enabled(run[i - 1], act) && run[i] == Apply(run[i - 1], act);
      InvStep(run[i - 1], act);
    }
  }

  // ---------------------------------------------------------- linearizability

  function PcAt(run: seq<State>, i: nat, t: Tid): Pc
    requires i < |run| && t < |run[i].threads|
  {
    run[i].threads[t].pc
  }

  /** Thread t's call of copy_world_mesh read `read_buffer` in state i and has not
      returned in any state up to j. */
  ghost predicate CallFrom(run: seq<State>, t: Tid, i: nat, j: nat) {
    && i < j < |run|
    && (forall k :: i <= k <= j ==> t < |run[k].threads|)
    && PcAt(run, i, t) == RSelect
    && forall k :: i < k <= j ==> Selected(PcAt(run, k, t))
  }

  /** The step from state j to state j + 1 is thread t returning from copy_world_mesh. */
  predicate Returns(run: seq<State>, t: Tid, j: nat) {
    && j + 1 < |run|
    && t < |run[j].threads| && t < |run[j + 1].threads|
    && |run[j + 1].threads[t].done| == |run[j].threads[t].done| + 1
  }

  function Returned(run: seq<State>, t: Tid, j: nat): Copy
    requires Returns(run, t, j)
  {
    var done := run[j + 1].threads[t].done;
    done[|done| - 1]
  }

  /** What the step from state i to state i + 1 may do to thread t's call and to the log. */
  predicate StepFacts(run: seq<State>, t: Tid, i: nat)
    requires i + 1 < |run|
  {
    && t < |run[i].threads| && t < |run[i + 1].threads|
    && run[i].shared.log <= run[i + 1].shared.log
    && |run[i + 1].shared.log| <= |run[i].shared.log| + 1
    && (Selected(PcAt(run, i + 1, t)) ==>
          if PcAt(run, i, t) == RSelect
          then PcAt(run, i + 1, t).since == run[i].shared.Newest()
          else Selected(PcAt(run, i, t)) && PcAt(run, i + 1, t).since == PcAt(run, i, t).since)
    && (Returns(run, t, i) ==>
          && Selected(PcAt(run, i, t))
          && CopyOk(run[i].shared, Returned(run, t, i))
          && Returned(run, t, i).since == PcAt(run, i, t).since
          && Returned(run, t, i).until == run[i].shared.Newest())
  }

  /** All that the theorems below need to know of a run. */
  ghost predicate RunFacts(run: seq<State>, t: Tid) {
    && |run| > 0
    && t < |run[0].threads|
    && !Selected(PcAt(run, 0, t))
    && forall i: nat :: i + 1 < |run| ==> StepFacts(run, t, i)
  }

  lemma ThreadStep(s: State, act: Action, t: Tid)
    requires Inv(s) && Enabled(s, act) && t < |s.threads|
    ensures StepFacts([s, Apply(s, act)], t, 0)
  {
    if act.Advance? {
      ContentEffect(s.shared, act.t, s.threads[act.t].pc);
      if act.t == t {
        if !Writing(s.threads[t].pc) && InSlot(s.threads[t].pc, !s.shared.readBuffer) {
          ReadersSlot(s, t);
        }
        CopyEffect(s.shared, t, s.threads[t].pc, MidWrite(s));
      }
    }
  }

  lemma {:induction false} ThreadsStay(run: seq<State>, i: nat)
    requires IsRun(run) && i < |run|
    ensures |run[i].threads| == |run[0].threads|
  {
    if i > 0 {
      ThreadsStay(run, i - 1);
      assert Next(run[i - 1], run[i - 1 + 1]);
    }
  }

  lemma FactsOfRun(run: seq<State>, t: Tid)
    requires IsRun(run) && t < |run[0].threads|
    ensures RunFacts(run, t)
  {
    forall i: nat | i + 1 < |run| ensures StepFacts(run, t, i) {
      RunInv(run, i);
      ThreadsStay(run, i);
      assert Next(run[i], run[i + 1]);
      var act :| Enabled(run[i], act) && run[i + 1] == Apply(run[i], act);
      ThreadStep(run[i], act, t);
    }
  }

  /** A call that has read `read_buffer` did so at some earlier step of the run. */
  lemma {:induction false} CallBegins(run: seq<State>, t: Tid, j: nat) returns (i: nat)
    requires RunFacts(run, t) && j < |run| && t < |run[j].threads| && Selected(PcAt(run, j, t))
    ensures CallFrom(run, t, i, j)
    ensures PcAt(run, j, t).since == run[i].shared.Newest()
  {
    assert StepFacts(run, t, j - 1);
    if PcAt(run, j - 1, t) == RSelect {
      i := j - 1;
    } else {
      i := CallBegins(run, t, j - 1);
    }
  }

  lemma {:induction false} LogGrows(run: seq<State>, t: Tid, i: nat, j: nat)
    requires RunFacts(run, t) && i <= j < |run|
    ensures run[i].shared.log <= run[j].shared.log
  {
    if i < j {
      LogGrows(run, t, i, j - 1);
      assert StepFacts(run, t, j - 1);
    }
  }

  /** Every version between two states' newest ones was the newest at a state between. */
  lemma {:induction false} VersionPublished(run: seq<State>, t: Tid, i: nat, j: nat, v: int) returns (k: nat)
    requires RunFacts(run, t) && i <= j < |run|
    requires run[i].shared.Newest() <= v <= run[j].shared.Newest()
    ensures i <= k <= j && run[k].shared.Newest() == v
    decreases j - i
  {
    if run[i].shared.Newest() == v {
      k := i;
    } else {
      assert StepFacts(run, t, i);
      k := VersionPublished(run, t, i + 1, j, v);
    }
  }

  lemma {:induction false} SinceIsFixed(run: seq<State>, t: Tid, i: nat, j: nat)
    requires RunFacts(run, t) && CallFrom(run, t, i, j)
    ensures PcAt(run, j, t).since == run[i].shared.Newest()
  {
    assert StepFacts(run, t, j - 1);
    if i < j - 1 {
      SinceIsFixed(run, t, i, j - 1);
    }
  }

  /**
   In every interleaving, the mesh a call of copy_world_mesh copies (or the NULL it
   returns) was the published one in a state k between the call's read of
   `read_buffer` and its return; and at the return it is the newest or the second
   newest of all published meshes.
   */
  lemma CopyIsLinearizable(run: seq<State>, t: Tid, j: nat) returns (i: nat, k: nat)
    requires IsRun(run) && Returns(run, t, j)
    ensures CallFrom(run, t, i, j)
    ensures i <= k <= j
    ensures run[k].shared.Published() == Returned(run, t, j).mesh
    ensures run[j].shared.Newest() - 1 <= run[k].shared.Newest() <= run[j].shared.Newest()
    ensures run[k].shared.Newest() == Returned(run, t, j).version
  {
    ThreadsStay(run, j);
    FactsOfRun(run, t);
    assert StepFacts(run, t, j);
    i := CallBegins(run, t, j);
    k := VersionPublished(run, t, i, j, Returned(run, t, j).version);
    LogGrows(run, t, k, j);
    RunInv(run, k);
  }

  /**
   Copies never go back in version: if one call returns before another one reads
   `read_buffer`, in the same thread or in another, the second copies a mesh at
   least as new as the first.
   */
  lemma CopiesNeverGoBack(run: seq<State>, t: Tid, j: nat, t': Tid, i': nat, j': nat)
    requires IsRun(run) && Returns(run, t, j) && Returns(run, t', j')
    requires CallFrom(run, t', i', j') && j < i'
    ensures Returned(run, t, j).version <= Returned(run, t', j').version
  {
    ThreadsStay(run, j);
    ThreadsStay(run, j');
    FactsOfRun(run, t);
    FactsOfRun(run, t');
    assert StepFacts(run, t, j) && StepFacts(run, t', j');
    LogGrows(run, t, j, i');
    SinceIsFixed(run, t', i', j');
  }

  // ---------------------------------------------------------------- ownership

  /** No mesh is lost, shared between slots, or freed twice; a freed mesh is in no
      slot; and when no call is pending every mesh is in a slot or freed. */
  lemma OwnershipOverRuns(run: seq<State>, i: nat, m: Mesh)
    requires IsRun(run) && i < |run|
    ensures var sh := run[i].shared;
      && sh.freed[m] + Is(sh.a.mesh, m) + Is(sh.b.mesh, m) <= 1
      && (m !in run[i].passed ==> sh.freed[m] == 0 && sh.a.mesh != Some(m) && sh.b.mesh != Some(m))
      && (m in run[i].passed && AllIdle(run[i]) ==>
            sh.freed[m] + Is(sh.a.mesh, m) + Is(sh.b.mesh, m) == 1)
  {
    RunInv(run, i);
    assert Conserved(run[i], m);
    if AllIdle(run[i]) {
      NoHands(run[i].threads, m);
    }
  }

  predicate AllIdle(s: State) {
    forall t :: 0 <= t < |s.threads| ==> s.threads[t].pc == Idle
  }

  lemma {:induction false} NoHands(threads: seq<Thread>, m: Mesh)
    requires forall t :: 0 <= t < |threads| ==> threads[t].pc == Idle
    ensures InHands(threads, m) == 0
  {
    if threads != [] {
      NoHands(threads[1..], m);
    }
  }

  /** While a reader has a mesh in use, that mesh stays in its slot and is not freed:
      not before the use, not by any step during it. */
  lemma MeshInUseIsLive(run: seq<State>, i: nat, t: Tid)
    requires IsRun(run) && i < |run| && t < |run[i].threads|
    requires var pc := PcAt(run, i, t); (pc.RTest? || pc.RCopy? || pc.RUnlockSlot?) && pc.src.Some?
    ensures var pc := PcAt(run, i, t);
      && run[i].shared.At(pc.target).mesh == pc.src
      && run[i].shared.At(pc.target).owner == Some(t)
      && run[i].shared.freed[pc.src.value] == 0
  {
    RunInv(run, i);
    var pc := PcAt(run, i, t);
    assert PcOk(run[i].shared, pc) && OwnLocks(run[i].shared, t, pc);
    assert Conserved(run[i], pc.src.value);
  }

  // --------------------------------------------------- freedom from deadlock

  /** The number of steps a call still has to take, at most. */
  function Remaining(pc: Pc): nat {
    match pc
    case Idle => 0
    case WLockSelector(_) => 9
    case WChoose(_) => 8
    case WLockSlot(_, _) => 7
    case WLoad(_, _) => 6
    case WStore(_, _, _) => 5
    case WFree(_, _) => 4
    case WPublish(_) => 3
    case WUnlockSelector(_) => 2
    case WUnlockSlot(_) => 1
    case RLockSelector => LAYERS + 8
    case RSelect => LAYERS + 7
    case RUnlockSelector(_, _) => LAYERS + 6
    case RLockSlot(_, _) => LAYERS + 5
    case RLoad(_, _) => LAYERS + 4
    case RTest(_, _, _, _) => LAYERS + 3
    case RCopy(_, _, _, _, layers) => layers + 2
    case RUnlockSlot(_, _, _, _) => 1
  }

  function Work(threads: seq<Thread>): nat {
    if threads == [] then 0 else Remaining(threads[0].pc) + Work(threads[1..])
  }

  lemma {:induction false} WorkUpdate(threads: seq<Thread>, t: Tid, th: Thread)
    requires t < |threads|
    ensures Work(threads[t := th]) + Remaining(threads[t].pc) == Work(threads) + Remaining(th.pc)
  {
    if t == 0 {
      assert threads[0 := th][1..] == threads[1..];
    } else {
      WorkUpdate(threads[1..], t - 1, th);
      assert threads[t := th][1..] == threads[1..][t - 1 := th];
    }
  }

  lemma StepShortens(sh: Shared, t: Tid, pc: Pc)
    requires pc != Idle
    ensures Remaining(Step(sh, t, pc).pc) < Remaining(pc)
  {
  }

  lemma AdvanceWorks(s: State, t: Tid)
    requires Enabled(s, Advance(t))
    ensures Work(Apply(s, Advance(t)).threads) < Work(s.threads)
  {
    StepShortens(s.shared, t, s.threads[t].pc);
    hide Work, Remaining, Step;
    WorkUpdate(s.threads, t, Apply(s, Advance(t)).threads[t]);
  }

  /** Where no thread can move, no thread is inside a call. The thread that can move
      is found by following the locks: selector first, then slot. */
  lemma SomeoneCanAdvance(s: State, t: Tid) returns (u: Tid)
    requires Inv(s) && t < |s.threads| && s.threads[t].pc != Idle
    ensures Enabled(s, Advance(u))
  {
    u := t;
    if !Ready(s.shared, s.threads[u].pc) && (s.threads[u].pc.WLockSelector? || s.threads[u].pc.RLockSelector?) {
      u := s.shared.selector.value;
      assert OwnLocks(s.shared, u, s.threads[u].pc);
    }
    if !Ready(s.shared, s.threads[u].pc) {
      u := s.shared.At(s.threads[u].pc.target).owner.value;
      assert OwnLocks(s.shared, u, s.threads[u].pc);
    }
  }

  ghost predicate Advances(s: State, s': State) {
    exists t :: Enabled(s, Advance(t)) && s' == Apply(s, Advance(t))
  }

  /** A stretch of a run in which no new call starts. */
  ghost predicate IsDrain(path: seq<State>) {
    && |path| > 0
    && (|path| > 1 ==> Advances(path[0], path[1]) && IsDrain(path[1..]))
  }

  ghost predicate Stuck(s: State) { forall u :: !Enabled(s, Advance(u)) }

  lemma StuckIsIdle(s: State)
    requires Inv(s) && Stuck(s)
    ensures AllIdle(s)
  {
    if t :| 0 <= t < |s.threads| && s.threads[t].pc != Idle {
      var u := SomeoneCanAdvance(s, t);
    }
  }

  lemma AdvancesKeeps(s: State, s': State)
    requires Inv(s) && Advances(s, s')
    ensures Inv(s') && Work(s'.threads) < Work(s.threads)
  {
    var t :| Enabled(s, Advance(t)) && s' == Apply(s, Advance(t));
    InvStep(s, Advance(t));
    AdvanceWorks(s, t);
  }

  /**
   However threads are scheduled, the calls pending in a reachable state end: if no
   new call starts, no more steps can be taken than the calls have left to take, and
   a stretch that cannot be continued has ended every call.
   */
  lemma {:induction false} PendingCallsEnd(path: seq<State>)
    requires IsDrain(path) && Inv(path[0])
    ensures |path| - 1 + Work(path[|path| - 1].threads) <= Work(path[0].threads)
    ensures Stuck(path[|path| - 1]) ==> AllIdle(path[|path| - 1])
  {
    if |path| == 1 {
      if Stuck(path[0]) {
        StuckIsIdle(path[0]);
      }
    } else {
      AdvancesKeeps(path[0], path[1]);
      PendingCallsEnd(path[1..]);
    }
  }

  /** And such a stretch exists from every reachable state: no deadlock. */
  lemma {:induction false} EveryCallCanFinish(s: State) returns (path: seq<State>)
    requires Inv(s)
    ensures IsDrain(path) && path[0] == s && AllIdle(path[|path| - 1])
    decreases Work(s.threads)
  {
    if Stuck(s) {
      StuckIsIdle(s);
      path := [s];
    } else {
      var u :| Enabled(s, Advance(u));
      var s' := Apply(s, Advance(u));
      assert Advances(s, s');
      AdvancesKeeps(s, s');
      var rest := EveryCallCanFinish(s');
      path := [s] + rest;
      assert path[1..] == rest;
    }
  }
}
