/** The reader/writer lock wrappers over a slim OS lock, as atomic steps of many threads.
    The flag that tells unlock which release to call is an ordinary field: every step reads or
    writes it without a lock of its own. */
module RwLocks {
  import opened Common

  datatype OsLock = Free | Shared(readers: nat) | Exclusive | Broken

  datatype Mode = Read | Write

  /** Where a thread stands. The mode is history: the code keeps it nowhere. */
  datatype Pc =
    | Idle                             // holds nothing
    | Reading                          // holds the lock shared, outside the wrappers
    | Acquired                         // the OS gave it the lock exclusively, the flag is not set yet
    | Writing                          // holds the lock exclusively, outside the wrappers
    | Tested(mode: Mode, saw: bool)    // in unlock, has read the flag
    | Cleared(mode: Mode)              // in unlock, has set the flag to FALSE

  datatype State = State(lock: OsLock, flag: bool, pcs: seq<Pc>)

  datatype Action =
    | AcquireShared | TrySharedFails | AcquireExclusive | TryExclusiveFails | SetFlag
    | TestFlag | ClearFlag | ReleaseExclusive | ReleaseShared

  datatype Step = Step(thread: nat, action: Action)

  function Initial(threads: nat): State {
    State(Free, false, seq(threads, _ => Idle))
  }

  // ---------- The OS lock ----------

  predicate CanShare(lock: OsLock) {
    lock.Free? || lock.Shared?
  }

  function Share(lock: OsLock): OsLock
    requires CanShare(lock)
  {
    if lock.Free? then Shared(1) else Shared(lock.readers + 1)
  }

  /** Releasing a mode that is not held is undefined for the OS: the lock is broken for good. */
  function Unshare(lock: OsLock): OsLock {
    match lock
    case Shared(n) => if n == 0 then Broken else if n == 1 then Free else Shared(n - 1)
    case _ => Broken
  }

  function Unexclude(lock: OsLock): OsLock {
    if lock.Exclusive? then Free else Broken
  }

  // ---------- One step of one thread ----------

  /** What the caller's discipline and the OS allow: a thread acquires only when it holds
      nothing and unlocks only what it holds; an acquiring call waits until the OS grants it. */
  predicate Enabled(s: State, step: Step) {
    && step.thread < |s.pcs|
    && var pc := s.pcs[step.thread];
       match step.action
       case AcquireShared => pc.Idle? && CanShare(s.lock)
       case TrySharedFails => pc.Idle?
       case AcquireExclusive => pc.Idle? && s.lock.Free?
       case TryExclusiveFails => pc.Idle?
       case SetFlag => pc.Acquired?
       case TestFlag => pc.Reading? || pc.Writing?
       case ClearFlag => pc.Tested? && pc.saw
       case ReleaseExclusive => pc.Cleared?
       case ReleaseShared => pc.Tested? && !pc.saw
  }

  function Held(pc: Pc): Mode {
    match pc
    case Acquired => Write
    case Writing => Write
    case Tested(mode, _) => mode
    case Cleared(mode) => mode
    case _ => Read
  }

  function After(s: State, step: Step): State
    requires Enabled(s, step)
  {
    var pc := s.pcs[step.thread];
    match step.action
    case AcquireShared => s.(lock := Share(s.lock), pcs := s.pcs[step.thread := Reading])
    case TrySharedFails => s
    case AcquireExclusive => s.(lock := Exclusive, pcs := s.pcs[step.thread := Acquired])
    case TryExclusiveFails => s
    case SetFlag => s.(flag := true, pcs := s.pcs[step.thread := Writing])
    case TestFlag => s.(pcs := s.pcs[step.thread := Tested(Held(pc), s.flag)])
    case ClearFlag => s.(flag := false, pcs := s.pcs[step.thread := Cleared(pc.mode)])
    case ReleaseExclusive => s.(lock := Unexclude(s.lock), pcs := s.pcs[step.thread := Idle])
    case ReleaseShared => s.(lock := Unshare(s.lock), pcs := s.pcs[step.thread := Idle])
  }

  /** A run: any interleaving of enabled steps. */
  predicate IsRun(s: State, steps: seq<Step>)
    decreases |steps|
  {
    steps == [] || (Enabled(s, steps[0]) && IsRun(After(s, steps[0]), steps[1..]))
  }

  function AfterRun(s: State, steps: seq<Step>): State
    requires IsRun(s, steps)
    decreases |steps|
  {
    if steps == [] then s else AfterRun(After(s, steps[0]), steps[1..])
  }

  // ---------- Counting threads ----------

  predicate HoldsShared(pc: Pc) {
    pc.Reading? || (pc.Tested? && pc.mode == Read) || (pc.Cleared? && pc.mode == Read)
  }

  predicate HoldsExclusive(pc: Pc) {
    pc.Acquired? || pc.Writing? || (pc.Tested? && pc.mode == Write) || (pc.Cleared? && pc.mode == Write)
  }

  function Count(pcs: seq<Pc>, p: Pc -> bool): nat {
    if pcs == [] then 0 else (if p(pcs[0]) then 1 else 0) + Count(pcs[1..], p)
  }

  lemma {:induction false} CountUpdate(pcs: seq<Pc>, p: Pc -> bool, t: nat, pc: Pc)
    requires t < |pcs|
    ensures Count(pcs[t := pc], p) == Count(pcs, p) - (if p(pcs[t]) then 1 else 0) + (if p(pc) then 1 else 0)
  {
    if t == 0 {
      assert pcs[t := pc][1..] == pcs[1..];
    } else {
      assert pcs[t := pc][1..] == pcs[1..][t - 1 := pc];
      CountUpdate(pcs[1..], p, t - 1, pc);
    }
  }

  lemma {:induction false} CountAtLeast(pcs: seq<Pc>, p: Pc -> bool, t: nat)
    requires t < |pcs| && p(pcs[t])
    ensures Count(pcs, p) >= 1
  {
    if t > 0 {
      CountAtLeast(pcs[1..], p, t - 1);
    }
  }

  lemma {:induction false} CountOfTwo(pcs: seq<Pc>, p: Pc -> bool, t: nat, u: nat)
    requires t < u < |pcs| && p(pcs[t]) && p(pcs[u])
    ensures Count(pcs, p) >= 2
  {
    if t > 0 {
      CountOfTwo(pcs[1..], p, t - 1, u - 1);
    } else {
      CountAtLeast(pcs[1..], p, u - 1);
    }
  }

  lemma {:induction false} CountOfNone(pcs: seq<Pc>, p: Pc -> bool)
    requires forall t :: 0 <= t < |pcs| ==> !p(pcs[t])
    ensures Count(pcs, p) == 0
  {
    if pcs != [] {
      CountOfNone(pcs[1..], p);
    }
  }

  // ---------- The invariant ----------

  ghost predicate LockMatches(s: State) {
    var r, w := Count(s.pcs, HoldsShared), Count(s.pcs, HoldsExclusive);
    match s.lock
    case Free => r == 0 && w == 0
    case Shared(n) => n > 0 && r == n && w == 0
    case Exclusive => r == 0 && w == 1
    case Broken => false
  }

  /** The thread is a writer between the two moments at which it sets and clears the flag. */
  predicate OwnsFlag(pc: Pc) {
    pc.Writing? || pc == Tested(Write, true)
  }

  /** Unlock has read what its caller's mode calls for. */
  predicate Consistent(pc: Pc) {
    (pc.Tested? ==> pc.saw == (pc.mode == Write)) && (pc.Cleared? ==> pc.mode == Write)
  }

  ghost predicate Inv(s: State) {
    && LockMatches(s)
    && (s.flag <==> exists t :: 0 <= t < |s.pcs| && OwnsFlag(s.pcs[t]))
    && forall t :: 0 <= t < |s.pcs| ==> Consistent(s.pcs[t])
  }

  /** In a state where one thread has the lock exclusively, no other thread holds it at all. */
  lemma WriterIsAlone(s: State, t: nat, u: nat)
    requires LockMatches(s) && t < |s.pcs| && u < |s.pcs| && t != u && HoldsExclusive(s.pcs[t])
    ensures s.lock.Exclusive? && !HoldsShared(s.pcs[u]) && !HoldsExclusive(s.pcs[u])
  {
    CountAtLeast(s.pcs, HoldsExclusive, t);
    if HoldsShared(s.pcs[u]) {
      CountAtLeast(s.pcs, HoldsShared, u);
    }
    if HoldsExclusive(s.pcs[u]) {
      if t < u {
        CountOfTwo(s.pcs, HoldsExclusive, t, u);
      } else {
        CountOfTwo(s.pcs, HoldsExclusive, u, t);
      }
    }
  }

  lemma StepKeepsLock(s: State, step: Step)
    requires Inv(s) && Enabled(s, step)
    ensures LockMatches(After(s, step))
  {
    var t, pc := step.thread, s.pcs[step.thread];
    var next := After(s, step).pcs[t];
    assert s.pcs[t := pc] == s.pcs;
    CountUpdate(s.pcs, HoldsShared, t, next);
    CountUpdate(s.pcs, HoldsExclusive, t, next);
    if HoldsShared(pc) {
      CountAtLeast(s.pcs, HoldsShared, t);
    }
    if HoldsExclusive(pc) {
      CountAtLeast(s.pcs, HoldsExclusive, t);
    }
    assert Consistent(pc);
  }

  lemma StepKeepsInv(s: State, step: Step)
    requires Inv(s) && Enabled(s, step)
    ensures Inv(After(s, step))
  {
    StepKeepsLock(s, step);
    hide LockMatches;
    var t, pc, s' := step.thread, s.pcs[step.thread], After(s, step);
    assert Consistent(pc);
    forall u | 0 <= u < |s.pcs| && u != t
      ensures OwnsFlag(s'.pcs[u]) == OwnsFlag(s.pcs[u]) && Consistent(s'.pcs[u])
      ensures HoldsExclusive(pc) ==> !OwnsFlag(s.pcs[u])
      ensures HoldsShared(pc) ==> !OwnsFlag(s.pcs[u])
    {
      if HoldsExclusive(pc) {
        WriterIsAlone(s, t, u);
      }
      if OwnsFlag(s.pcs[u]) {
        WriterIsAlone(s, u, t);
      }
    }
    assert s'.pcs[t] == After(s, step).pcs[t];
    if s.flag {
      var u :| 0 <= u < |s.pcs| && OwnsFlag(s.pcs[u]);
      assert u != t ==> OwnsFlag(s'.pcs[u]);
    }
  }

  lemma InitialInv(threads: nat)
    ensures Inv(Initial(threads))
  {
    var s := Initial(threads);
    CountOfNone(s.pcs, HoldsShared);
    CountOfNone(s.pcs, HoldsExclusive);
  }

  lemma {:induction false} RunKeepsInv(s: State, steps: seq<Step>)
    requires Inv(s) && IsRun(s, steps)
    ensures Inv(AfterRun(s, steps))
    decreases |steps|
  {
    if steps != [] {
      StepKeepsInv(s, steps[0]);
      RunKeepsInv(After(s, steps[0]), steps[1..]);
    }
  }

  // ---------- What every run guarantees ----------

  /** In every run of any number of threads, each release that unlock performs is of the mode its
      caller holds, the OS lock has that mode, and it is never broken. */
  lemma UnlockReleasesWhatIsHeld(threads: nat, steps: seq<Step>, next: Step)
    requires IsRun(Initial(threads), steps) && Enabled(AfterRun(Initial(threads), steps), next)
    ensures
      var s := AfterRun(Initial(threads), steps);
      && (next.action.ReleaseExclusive? ==> Held(s.pcs[next.thread]) == Write && s.lock.Exclusive?)
      && (next.action.ReleaseShared? ==> Held(s.pcs[next.thread]) == Read && s.lock.Shared?)
      && !After(s, next).lock.Broken?
  {
    InitialInv(threads);
    RunKeepsInv(Initial(threads), steps);
    var s := AfterRun(Initial(threads), steps);
    StepKeepsInv(s, next);
    var pc := s.pcs[next.thread];
    assert Consistent(pc);
    if HoldsShared(pc) {
      CountAtLeast(s.pcs, HoldsShared, next.thread);
    }
    if HoldsExclusive(pc) {
      CountAtLeast(s.pcs, HoldsExclusive, next.thread);
    }
  }

  /** The flag is TRUE exactly while some writer stands between setting and clearing it; then that
      writer alone holds the lock. A reader that tests it therefore reads FALSE. */
  lemma FlagMeansOneWriter(threads: nat, steps: seq<Step>)
    requires IsRun(Initial(threads), steps)
    ensures
      var s := AfterRun(Initial(threads), steps);
      && (s.flag <==> exists t :: 0 <= t < |s.pcs| && OwnsFlag(s.pcs[t]))
      && (s.flag ==> s.lock.Exclusive? && Count(s.pcs, HoldsExclusive) == 1 && Count(s.pcs, HoldsShared) == 0)
      && forall t :: 0 <= t < |s.pcs| && HoldsShared(s.pcs[t]) ==> !s.flag
  {
    InitialInv(threads);
    RunKeepsInv(Initial(threads), steps);
    var s := AfterRun(Initial(threads), steps);
    if s.flag {
      var t :| 0 <= t < |s.pcs| && OwnsFlag(s.pcs[t]);
      CountAtLeast(s.pcs, HoldsExclusive, t);
      forall u | 0 <= u < |s.pcs|
        ensures !HoldsShared(s.pcs[u])
      {
        if u != t {
          WriterIsAlone(s, t, u);
        }
      }
    }
  }

  /** When every thread is back outside, lock and flag are as they were initialised. */
  lemma QuietMeansInitial(threads: nat, steps: seq<Step>)
    requires IsRun(Initial(threads), steps)
    requires forall t :: 0 <= t < |AfterRun(Initial(threads), steps).pcs| ==> AfterRun(Initial(threads), steps).pcs[t].Idle?
    ensures AfterRun(Initial(threads), steps).lock == Free && !AfterRun(Initial(threads), steps).flag
  {
    InitialInv(threads);
    RunKeepsInv(Initial(threads), steps);
    var s := AfterRun(Initial(threads), steps);
    CountOfNone(s.pcs, HoldsShared);
    CountOfNone(s.pcs, HoldsExclusive);
  }

  // ---------- The state from the history of steps alone ----------

  /** What a step counts for: 1 for the one action, -1 for the other, by one thread or by any. */
  function Worth(step: Step, who: Option<nat>, up: Action, down: Action): int {
    if who.Some? && who.value != step.thread then 0
    else if step.action == up then 1
    else if step.action == down then -1
    else 0
  }

  function Net(steps: seq<Step>, who: Option<nat>, up: Action, down: Action): int {
    if steps == [] then 0 else Worth(steps[0], who, up, down) + Net(steps[1..], who, up, down)
  }

  function Readers(steps: seq<Step>, who: Option<nat>): int {
    Net(steps, who, AcquireShared, ReleaseShared)
  }

  function Writers(steps: seq<Step>, who: Option<nat>): int {
    Net(steps, who, AcquireExclusive, ReleaseExclusive)
  }

  function One(b: bool): int {
    if b then 1 else 0
  }

  lemma StepFlags(s: State, step: Step)
    requires Inv(s) && Enabled(s, step)
    ensures One(After(s, step).flag) == One(s.flag) + Worth(step, None, SetFlag, ClearFlag)
  {
    hide LockMatches;
    var t, pc := step.thread, s.pcs[step.thread];
    assert Consistent(pc);
    if s.flag && pc.Acquired? {
      var u :| 0 <= u < |s.pcs| && OwnsFlag(s.pcs[u]);
      WriterIsAlone(s, u, t);
    }
    assert step.action.ClearFlag? ==> OwnsFlag(pc);
  }

  lemma StepHolds(s: State, step: Step, t: nat)
    requires Inv(s) && Enabled(s, step) && t < |s.pcs|
    ensures
      var s' := After(s, step);
      && One(HoldsShared(s'.pcs[t])) == One(HoldsShared(s.pcs[t])) + Worth(step, Some(t), AcquireShared, ReleaseShared)
      && One(HoldsExclusive(s'.pcs[t])) == One(HoldsExclusive(s.pcs[t])) + Worth(step, Some(t), AcquireExclusive, ReleaseExclusive)
  {
    assert Consistent(s.pcs[step.thread]);
  }

  /** What one step changes in the two counts of holders. */
  lemma StepCounts(s: State, step: Step)
    requires Inv(s) && Enabled(s, step)
    ensures
      var s' := After(s, step);
      && Count(s'.pcs, HoldsShared) == Count(s.pcs, HoldsShared) + Worth(step, None, AcquireShared, ReleaseShared)
      && Count(s'.pcs, HoldsExclusive) == Count(s.pcs, HoldsExclusive) + Worth(step, None, AcquireExclusive, ReleaseExclusive)
  {
    hide Inv, Enabled, After, HoldsShared, HoldsExclusive;
    OnlyOneMoves(s, step);
    var t := step.thread;
    var next := After(s, step).pcs[t];
    StepHolds(s, step, t);
    CountUpdate(s.pcs, HoldsShared, t, next);
    CountUpdate(s.pcs, HoldsExclusive, t, next);
  }

  lemma OnlyOneMoves(s: State, step: Step)
    requires Enabled(s, step)
    ensures
      var s' := After(s, step);
      step.thread < |s.pcs| == |s'.pcs| && s'.pcs == s.pcs[step.thread := s'.pcs[step.thread]]
  {
    assert s.pcs[step.thread := s.pcs[step.thread]] == s.pcs;
  }

  lemma {:induction false} RunCounts(s: State, steps: seq<Step>)
    requires Inv(s) && IsRun(s, steps)
    ensures
      var s' := AfterRun(s, steps);
      && Count(s'.pcs, HoldsShared) == Count(s.pcs, HoldsShared) + Readers(steps, None)
      && Count(s'.pcs, HoldsExclusive) == Count(s.pcs, HoldsExclusive) + Writers(steps, None)
      && One(s'.flag) == One(s.flag) + Net(steps, None, SetFlag, ClearFlag)
    decreases |steps|
  {
    hide After, Enabled, Inv, Count;
    if steps != [] {
      StepCounts(s, steps[0]);
      StepFlags(s, steps[0]);
      StepKeepsInv(s, steps[0]);
      RunCounts(After(s, steps[0]), steps[1..]);
    }
  }

  lemma {:induction false} RunHolds(s: State, steps: seq<Step>, t: nat)
    requires Inv(s) && IsRun(s, steps) && t < |s.pcs|
    ensures
      var s' := AfterRun(s, steps);
      && |s'.pcs| == |s.pcs|
      && One(HoldsShared(s'.pcs[t])) == One(HoldsShared(s.pcs[t])) + Readers(steps, Some(t))
      && One(HoldsExclusive(s'.pcs[t])) == One(HoldsExclusive(s.pcs[t])) + Writers(steps, Some(t))
    decreases |steps|
  {
    if steps != [] {
      StepHolds(s, steps[0], t);
      StepKeepsInv(s, steps[0]);
      RunHolds(After(s, steps[0]), steps[1..], t);
    }
  }

  /** In every run, the OS lock and the flag follow from the acquisitions and releases so far. */
  lemma LockIsDecidedByHistory(threads: nat, steps: seq<Step>)
    requires IsRun(Initial(threads), steps)
    ensures
      var s := AfterRun(Initial(threads), steps);
      var readers, writers := Readers(steps, None), Writers(steps, None);
      && readers >= 0 && 0 <= writers <= 1 && !(readers > 0 && writers > 0)
      && s.lock == (if writers == 1 then Exclusive else if readers == 0 then Free else Shared(readers))
      && (s.flag <==> Net(steps, None, SetFlag, ClearFlag) == 1)
  {
    hide Net;
    var s := Initial(threads);
    InitialInv(threads);
    RunKeepsInv(s, steps);
    RunCounts(s, steps);
    CountOfNone(s.pcs, HoldsShared);
    CountOfNone(s.pcs, HoldsExclusive);
  }

  /** A thread holds the lock in a mode exactly when it has acquired it once more than released it. */
  lemma HoldingIsDecidedByHistory(threads: nat, steps: seq<Step>, t: nat)
    requires IsRun(Initial(threads), steps) && t < threads
    ensures
      var s := AfterRun(Initial(threads), steps);
      && |s.pcs| == threads
      && Readers(steps, Some(t)) == One(HoldsShared(s.pcs[t]))
      && Writers(steps, Some(t)) == One(HoldsExclusive(s.pcs[t]))
      && (s.pcs[t].Idle? <==> Readers(steps, Some(t)) == Writers(steps, Some(t)) == 0)
  {
    hide Net;
    InitialInv(threads);
    RunKeepsInv(Initial(threads), steps);
    RunHolds(Initial(threads), steps, t);
    assert Consistent(AfterRun(Initial(threads), steps).pcs[t]);
  }

  // ---------- Who is let in ----------

  predicate SomeoneHolds(s: State, p: Pc -> bool) {
    exists t :: 0 <= t < |s.pcs| && p(s.pcs[t])
  }

  lemma {:induction false} CountedIfAny(pcs: seq<Pc>, p: Pc -> bool)
    ensures Count(pcs, p) > 0 <==> exists t :: 0 <= t < |pcs| && p(pcs[t])
  {
    if t :| 0 <= t < |pcs| && p(pcs[t]) {
      CountAtLeast(pcs, p, t);
    } else {
      CountOfNone(pcs, p);
    }
  }

  /** In every run, a thread that holds nothing can take the lock shared exactly when no thread has
      it exclusively, and exclusively exactly when no thread has it at all; the first makes it one
      of the readers, the second the only holder. */
  lemma WhoIsLetIn(threads: nat, steps: seq<Step>, t: nat)
    requires IsRun(Initial(threads), steps) && t < |AfterRun(Initial(threads), steps).pcs|
    requires AfterRun(Initial(threads), steps).pcs[t].Idle?
    ensures
      var s := AfterRun(Initial(threads), steps);
      var shared, exclusive := Step(t, AcquireShared), Step(t, AcquireExclusive);
      && (Enabled(s, shared) <==> !SomeoneHolds(s, HoldsExclusive))
      && (Enabled(s, exclusive) <==> !SomeoneHolds(s, HoldsExclusive) && !SomeoneHolds(s, HoldsShared))
      && (Enabled(s, shared) ==>
            Readers(steps, None) >= 0 && After(s, shared) == State(Shared(Readers(steps, None) + 1), false, s.pcs[t := Reading]))
      && (Enabled(s, exclusive) ==> After(s, exclusive) == State(Exclusive, false, s.pcs[t := Acquired]))
  {
    hide Net;
    var s := AfterRun(Initial(threads), steps);
    InitialInv(threads);
    RunKeepsInv(Initial(threads), steps);
    LockIsDecidedByHistory(threads, steps);
    FlagMeansOneWriter(threads, steps);
    CountedIfAny(s.pcs, HoldsShared);
    CountedIfAny(s.pcs, HoldsExclusive);
  }

  /** The step that a thread inside a wrapper, or outside one with the lock held, takes next. */
  function NextAction(pc: Pc): Action
    requires !pc.Idle?
  {
    match pc
    case Acquired => SetFlag
    case Tested(_, saw) => if saw then ClearFlag else ReleaseShared
    case Cleared(_) => ReleaseExclusive
    case _ => TestFlag
  }

  /** No run ever gets stuck: a thread that holds the lock, in or outside a wrapper, can always take
      its next step and no other; when none holds it, every thread can take it in either mode. */
  lemma NeverStuck(threads: nat, steps: seq<Step>, t: nat)
    requires IsRun(Initial(threads), steps) && t < |AfterRun(Initial(threads), steps).pcs|
    ensures
      var s := AfterRun(Initial(threads), steps);
      && (!s.pcs[t].Idle? ==> forall a: Action :: Enabled(s, Step(t, a)) <==> a == NextAction(s.pcs[t]))
      && ((forall u :: 0 <= u < |s.pcs| ==> s.pcs[u].Idle?) ==>
            Enabled(s, Step(t, AcquireShared)) && Enabled(s, Step(t, AcquireExclusive)))
  {
    var s := AfterRun(Initial(threads), steps);
    if forall u :: 0 <= u < |s.pcs| ==> s.pcs[u].Idle? {
      QuietMeansInitial(threads, steps);
    }
  }

  // ---------- The wrappers as code ----------

  /** The lock structure. Each statement of a wrapper is one step of the calling thread. */
  class NativeRwLock {
    var srwlock: OsLock
    var haveExclusiveSrwlock: bool
    ghost var pcs: seq<Pc>

    ghost function View(): State
      reads this
    {
      State(srwlock, haveExclusiveSrwlock, pcs)
    }

    constructor (ghost threads: nat)
      ensures View() == Initial(threads)
    {
      srwlock := Free;
      haveExclusiveSrwlock := false;
      pcs := seq(threads, _ => Idle);
    }

    method RdLock(ghost t: nat) returns (rc: int)
      requires Enabled(View(), Step(t, AcquireShared))
      modifies this
      ensures rc == 0 && View() == After(old(View()), Step(t, AcquireShared))
      ensures srwlock == Shared(if old(srwlock).Shared? then old(srwlock).readers + 1 else 1)
      ensures pcs == old(pcs)[t := Reading] && haveExclusiveSrwlock == old(haveExclusiveSrwlock)
    {
      srwlock := Share(srwlock);
      pcs := pcs[t := Reading];
      return 0;
    }

    method TryRdLock(ghost t: nat, granted: bool) returns (rc: int)
      requires Enabled(View(), Step(t, TrySharedFails)) && (granted ==> CanShare(srwlock))
      modifies this
      ensures rc == (if granted then 0 else EBUSY) && (rc == 0 <==> granted)
      ensures View() == After(old(View()), Step(t, if granted then AcquireShared else TrySharedFails))
      ensures granted ==>
                && srwlock == Shared(if old(srwlock).Shared? then old(srwlock).readers + 1 else 1)
                && pcs == old(pcs)[t := Reading] && haveExclusiveSrwlock == old(haveExclusiveSrwlock)
      ensures !granted ==> View() == old(View())
    {
      if !granted {
        return EBUSY;
      }
      srwlock := Share(srwlock);
      pcs := pcs[t := Reading];
      return 0;
    }

    method WrLock(ghost t: nat) returns (rc: int)
      requires Enabled(View(), Step(t, AcquireExclusive))
      modifies this
      ensures rc == 0 && IsRun(old(View()), [Step(t, AcquireExclusive), Step(t, SetFlag)])
      ensures View() == AfterRun(old(View()), [Step(t, AcquireExclusive), Step(t, SetFlag)])
      ensures srwlock.Exclusive? && haveExclusiveSrwlock && pcs == old(pcs)[t := Writing]
    {
      ghost var s0 := View();
      srwlock := Exclusive;
      pcs := pcs[t := Acquired];
      ghost var s1 := View();
      haveExclusiveSrwlock := true;
      pcs := pcs[t := Writing];
      TwoSteps(s0, s1, View(), Step(t, AcquireExclusive), Step(t, SetFlag));
      return 0;
    }

    method TryWrLock(ghost t: nat, granted: bool) returns (rc: int)
      requires Enabled(View(), Step(t, TryExclusiveFails)) && (granted ==> srwlock.Free?)
      modifies this
      ensures rc == (if granted then 0 else EBUSY) && (rc == 0 <==> granted)
      ensures !granted ==> View() == After(old(View()), Step(t, TryExclusiveFails)) == old(View())
      ensures granted ==>
                && IsRun(old(View()), [Step(t, AcquireExclusive), Step(t, SetFlag)])
                && View() == AfterRun(old(View()), [Step(t, AcquireExclusive), Step(t, SetFlag)])
                && srwlock.Exclusive? && haveExclusiveSrwlock && pcs == old(pcs)[t := Writing]
    {
      if !granted {
        return EBUSY;
      }
      rc := WrLock(t);
    }

    /** Runs to its end without another thread in between: the lock is released in the mode held. */
    method Unlock(ghost t: nat) returns (rc: int)
      requires Inv(View()) && Enabled(View(), Step(t, TestFlag))
      modifies this
      ensures rc == 0 && IsRun(old(View()), UnlockSteps(old(View()), t))
      ensures View() == AfterRun(old(View()), UnlockSteps(old(View()), t))
      ensures Inv(View()) && pcs == old(pcs)[t := Idle] && !haveExclusiveSrwlock
      ensures srwlock == if old(pcs)[t].Writing? then Free else Unshare(old(srwlock))
    {
      ghost var s0 := View();
      FlagTellsMode(s0, t);
      ghost var saw := haveExclusiveSrwlock;
      pcs := pcs[t := Tested(Held(pcs[t]), saw)];
      ghost var s1 := View();
      if haveExclusiveSrwlock {
        haveExclusiveSrwlock := false;
        pcs := pcs[t := Cleared(Write)];
        ghost var s2 := View();
        srwlock := Unexclude(srwlock);
        pcs := pcs[t := Idle];
        ThreeSteps(s0, s1, s2, View(), Step(t, TestFlag), Step(t, ClearFlag), Step(t, ReleaseExclusive));
      } else {
        srwlock := Unshare(srwlock);
        pcs := pcs[t := Idle];
        TwoSteps(s0, s1, View(), Step(t, TestFlag), Step(t, ReleaseShared));
      }
      RunKeepsInv(s0, UnlockSteps(s0, t));
      return 0;
    }
  }

  function UnlockSteps(s: State, t: nat): seq<Step> {
    if s.flag then [Step(t, TestFlag), Step(t, ClearFlag), Step(t, ReleaseExclusive)]
    else [Step(t, TestFlag), Step(t, ReleaseShared)]
  }

  /** A holder outside the wrappers finds the flag saying which mode it has. */
  lemma FlagTellsMode(s: State, t: nat)
    requires Inv(s) && t < |s.pcs| && (s.pcs[t].Reading? || s.pcs[t].Writing?)
    ensures s.flag == s.pcs[t].Writing?
    ensures s.flag ==> s.lock.Exclusive?
  {
    if s.pcs[t].Writing? {
      assert OwnsFlag(s.pcs[t]);
      CountAtLeast(s.pcs, HoldsExclusive, t);
    } else if s.flag {
      var u :| 0 <= u < |s.pcs| && OwnsFlag(s.pcs[u]);
      WriterIsAlone(s, u, t);
    }
  }

  lemma TwoSteps(s0: State, s1: State, s2: State, a: Step, b: Step)
    requires Enabled(s0, a) && After(s0, a) == s1 && Enabled(s1, b) && After(s1, b) == s2
    ensures IsRun(s0, [a, b]) && AfterRun(s0, [a, b]) == s2
  {
    assert [a, b][1..] == [b] && [b][1..] == [];
    assert IsRun(s2, []) && AfterRun(s2, []) == s2;
    assert IsRun(s1, [b]) && AfterRun(s1, [b]) == s2;
  }

  lemma ThreeSteps(s0: State, s1: State, s2: State, s3: State, a: Step, b: Step, c: Step)
    requires Enabled(s0, a) && After(s0, a) == s1
    requires Enabled(s1, b) && After(s1, b) == s2 && Enabled(s2, c) && After(s2, c) == s3
    ensures IsRun(s0, [a, b, c]) && AfterRun(s0, [a, b, c]) == s3
  {
    TwoSteps(s1, s2, s3, b, c);
    assert [a, b, c][1..] == [b, c];
  }
}
