/** The mutex wrappers over a recursive critical section, as atomic steps of many threads. */
module Mutexes {
  import opened Common

  /** The critical section: its owner and its RecursionCount. */
  datatype Section = Section(owner: Option<nat>, recursionCount: nat)

  const UNOWNED := Section(None, 0)

  /** Where a thread stands. The section a trylock found is history: the code keeps it nowhere. */
  datatype Pc =
    | Outside
    | Entered(found: Section)   // in trylock, TryEnterCriticalSection has succeeded
    | Refusing(found: Section)  // in trylock, has read a RecursionCount above 1

  /** acquired[t] counts the lock calls and trylock calls of thread t that returned 0,
      released[t] its unlock calls. */
  datatype State = State(section: Section, pcs: seq<Pc>, acquired: seq<nat>, released: seq<nat>)

  datatype Action = Enter | TryEnter | TryEnterFails | KeepEntered | RefuseRecursion | LeaveRefused | Unlock

  datatype Step = Step(thread: nat, action: Action)

  function Initial(threads: nat): State {
    State(UNOWNED, seq(threads, _ => Outside), seq(threads, _ => 0), seq(threads, _ => 0))
  }

  predicate WellFormed(s: State) {
    |s.pcs| == |s.acquired| == |s.released|
  }

  // ---------- The OS section ----------

  predicate CanEnter(section: Section, t: nat) {
    section.owner == None || section.owner == Some(t)
  }

  function Entering(section: Section, t: nat): Section {
    Section(Some(t), section.recursionCount + 1)
  }

  function Leaving(section: Section): Section {
    if section.recursionCount <= 1 then UNOWNED else section.(recursionCount := section.recursionCount - 1)
  }

  // ---------- One step of one thread ----------

  predicate Enabled(s: State, step: Step) {
    && WellFormed(s) && step.thread < |s.pcs|
    && var t, pc := step.thread, s.pcs[step.thread];
       match step.action
       case Enter => pc.Outside? && CanEnter(s.section, t)
       case TryEnter => pc.Outside? && CanEnter(s.section, t)
       case TryEnterFails => pc.Outside? && !CanEnter(s.section, t)
       case KeepEntered => pc.Entered? && s.section.recursionCount <= 1
       case RefuseRecursion => pc.Entered? && s.section.recursionCount > 1
       case LeaveRefused => pc.Refusing?
       case Unlock => pc.Outside? && s.section.owner == Some(t)
  }

  function After(s: State, step: Step): State
    requires Enabled(s, step)
  {
    var t, pc := step.thread, s.pcs[step.thread];
    match step.action
    case Enter => s.(section := Entering(s.section, t), acquired := s.acquired[t := s.acquired[t] + 1])
    case TryEnter => s.(section := Entering(s.section, t), pcs := s.pcs[t := Entered(s.section)])
    case TryEnterFails => s
    case KeepEntered => s.(pcs := s.pcs[t := Outside], acquired := s.acquired[t := s.acquired[t] + 1])
    case RefuseRecursion => s.(pcs := s.pcs[t := Refusing(pc.found)])
    case LeaveRefused => s.(section := Leaving(s.section), pcs := s.pcs[t := Outside])
    case Unlock => s.(section := Leaving(s.section), released := s.released[t := s.released[t] + 1])
  }

  predicate IsRun(s: State, steps: seq<Step>)
    decreases |steps|
  {
    steps == [] || (Enabled(s, steps[0]) && IsRun(After(s, steps[0]), steps[1..]))
  }

  function AfterRun(s: State, steps: seq<Step>): State
    requires IsRun(s, steps)
    decreases |steps|
  {
    if steps == [] then s else AfterRun(After(s, steps[0]), steps[1..])
  }

  // ---------- The invariant ----------

  function Balance(s: State, t: nat): int
    requires WellFormed(s) && t < |s.pcs|
  {
    s.acquired[t] as int - s.released[t] as int
  }

  /** The thread is between TryEnterCriticalSection and the outcome of its trylock. */
  predicate InTryLock(pc: Pc) {
    !pc.Outside?
  }

  /** What a thread in the middle of trylock found is what it will restore or replace. */
  predicate FoundMatches(s: State, t: nat)
    requires t < |s.pcs|
  {
    var pc := s.pcs[t];
    InTryLock(pc) ==>
      && s.section == Entering(pc.found, t)
      && CanEnter(pc.found, t)
      && (pc.found.recursionCount == 0 <==> pc.found.owner == None)
      && (pc.Refusing? ==> pc.found.owner == Some(t))
  }

  ghost predicate Inv(s: State) {
    && WellFormed(s)
    && (s.section.owner == None <==> s.section.recursionCount == 0)
    && (s.section.owner.Some? ==> s.section.owner.value < |s.pcs|)
    && forall t :: 0 <= t < |s.pcs| ==>
         && FoundMatches(s, t)
         && (if s.section.owner == Some(t)
             then s.section.recursionCount == Balance(s, t) + (if InTryLock(s.pcs[t]) then 1 else 0)
             else Balance(s, t) == 0 && !InTryLock(s.pcs[t]))
  }

  lemma StepKeepsInv(s: State, step: Step)
    requires Inv(s) && Enabled(s, step)
    ensures Inv(After(s, step))
  {
    var t, s' := step.thread, After(s, step);
    assert FoundMatches(s, t);
    forall u | 0 <= u < |s.pcs| && u != t
      ensures s'.pcs[u] == s.pcs[u] && Balance(s', u) == Balance(s, u) && FoundMatches(s', u)
    {
      assert FoundMatches(s, u);
    }
    assert FoundMatches(s', t);
  }

  lemma {:induction false} RunKeepsInv(s: State, steps: seq<Step>)
    requires Inv(s) && IsRun(s, steps)
    ensures Inv(AfterRun(s, steps))
    decreases |steps|
  {
    if steps != [] {
      StepKeepsInv(s, steps[0]);
      RunKeepsInv(After(s, steps[0]), steps[1..]);
    }
  }

  lemma Reached(threads: nat, steps: seq<Step>)
    requires IsRun(Initial(threads), steps)
    ensures Inv(AfterRun(Initial(threads), steps))
  {
    assert Inv(Initial(threads));
    RunKeepsInv(Initial(threads), steps);
  }

  // ---------- What every run guarantees ----------

  /** In every run, a trylock ends with 0 exactly when the section it found was unowned, and then
      its caller owns the section with count 1; when it ends with EBUSY, by either path, owner and
      count are what they were when it looked. */
  lemma TryLockOutcome(threads: nat, steps: seq<Step>, next: Step)
    requires IsRun(Initial(threads), steps) && Enabled(AfterRun(Initial(threads), steps), next)
    ensures
      var s := AfterRun(Initial(threads), steps);
      var s', t := After(s, next), next.thread;
      match next.action
      case KeepEntered => s.pcs[t].found == UNOWNED && s'.section == Section(Some(t), 1)
      case RefuseRecursion => s.pcs[t].found.owner == Some(t)
      case LeaveRefused => s'.section == s.pcs[t].found && s'.section.owner == Some(t)
      case TryEnterFails => s'.section == s.section && s.section.owner != None && s.section.owner != Some(t)
      case _ => true
  {
    Reached(threads, steps);
    assert FoundMatches(AfterRun(Initial(threads), steps), next.thread);
  }

  /** The section a trylock found stays the one recorded until that trylock is over, whatever other
      threads do meanwhile. */
  lemma OthersCannotInterfere(threads: nat, steps: seq<Step>, next: Step, t: nat)
    requires IsRun(Initial(threads), steps) && Enabled(AfterRun(Initial(threads), steps), next)
    requires t < threads && t != next.thread
    ensures
      var s := AfterRun(Initial(threads), steps);
      |s.pcs| == threads &&
      (InTryLock(s.pcs[t]) || s.section.owner == Some(t) ==> After(s, next).section == s.section)
  {
    Reached(threads, steps);
    ThreadsStay(Initial(threads), steps);
    var s := AfterRun(Initial(threads), steps);
    assert FoundMatches(s, t) && FoundMatches(s, next.thread);
  }

  lemma {:induction false} ThreadsStay(s: State, steps: seq<Step>)
    requires IsRun(s, steps)
    ensures |AfterRun(s, steps).pcs| == |s.pcs|
    decreases |steps|
  {
    if steps != [] {
      ThreadsStay(After(s, steps[0]), steps[1..]);
    }
  }

  /** Between calls, the recursion count of the owner is its successful acquisitions less its
      releases, and nobody else has a balance. */
  lemma CountIsBalance(threads: nat, steps: seq<Step>, t: nat)
    requires IsRun(Initial(threads), steps) && t < |AfterRun(Initial(threads), steps).pcs|
    ensures
      var s := AfterRun(Initial(threads), steps);
      && Inv(s)
      && (s.pcs[t].Outside? && s.section.owner == Some(t) ==> s.section.recursionCount == Balance(s, t) > 0)
      && (s.section.owner != Some(t) ==> Balance(s, t) == 0)
      && (Balance(s, t) > 0 ==> s.section.owner == Some(t))
  {
    Reached(threads, steps);
  }

  /** In every run, a thread outside the wrappers can enter exactly when no other thread has a
      balance or is inside trylock, and its trylock fails at once exactly when one does; a thread
      inside trylock always has exactly one step to take, by the count it found. */
  lemma WhoMayEnter(threads: nat, steps: seq<Step>, t: nat)
    requires IsRun(Initial(threads), steps) && t < |AfterRun(Initial(threads), steps).pcs|
    ensures WellFormed(AfterRun(Initial(threads), steps))
    ensures
      var s := AfterRun(Initial(threads), steps);
      var engaged := exists u :: 0 <= u < |s.pcs| && u != t && (InTryLock(s.pcs[u]) || Balance(s, u) > 0);
      match s.pcs[t]
      case Outside =>
        && (Enabled(s, Step(t, Enter)) <==> !engaged) && (Enabled(s, Step(t, TryEnter)) <==> !engaged)
        && (Enabled(s, Step(t, TryEnterFails)) <==> engaged)
        && (Enabled(s, Step(t, Action.Unlock)) <==> Balance(s, t) > 0)
      case Entered(found) =>
        forall a: Action :: Enabled(s, Step(t, a)) <==> a == if found == UNOWNED then KeepEntered else RefuseRecursion
      case Refusing(_) =>
        forall a: Action :: Enabled(s, Step(t, a)) <==> a == LeaveRefused
  {
    Reached(threads, steps);
    var s := AfterRun(Initial(threads), steps);
    assert FoundMatches(s, t);
    if s.section.owner.Some? {
      var u := s.section.owner.value;
      assert FoundMatches(s, u) && (InTryLock(s.pcs[u]) || Balance(s, u) > 0);
    }
  }

  // ---------- The wrappers as code ----------

  /** The steps of a trylock that no other thread disturbs, by what it finds. */
  function TryLockSteps(s: State, t: nat): seq<Step> {
    if s.section.owner == None then [Step(t, TryEnter), Step(t, KeepEntered)]
    else if s.section.owner == Some(t) then [Step(t, TryEnter), Step(t, RefuseRecursion), Step(t, LeaveRefused)]
    else [Step(t, TryEnterFails)]
  }

  lemma {:induction false} OneStepMore(s: State, steps: seq<Step>, next: Step)
    requires IsRun(s, steps) && Enabled(AfterRun(s, steps), next)
    ensures IsRun(s, steps + [next]) && AfterRun(s, steps + [next]) == After(AfterRun(s, steps), next)
    decreases |steps|
  {
    if steps == [] {
      assert IsRun(After(s, next), [next][1..]);
      assert [] + [next] == [next] && [next][1..] == [];
    } else {
      assert (steps + [next])[1..] == steps[1..] + [next];
      OneStepMore(After(s, steps[0]), steps[1..], next);
    }
  }

  /** The critical section. Each statement of a wrapper is one step of the calling thread. */
  class NativeMutex {
    var owner: Option<nat>
    var recursionCount: nat
    ghost var pcs: seq<Pc>
    ghost var acquired: seq<nat>
    ghost var released: seq<nat>

    function CriticalSection(): Section
      reads this
    {
      Section(owner, recursionCount)
    }

    ghost function View(): State
      reads this
    {
      State(CriticalSection(), pcs, acquired, released)
    }

    constructor (ghost threads: nat)
      ensures View() == Initial(threads)
    {
      owner, recursionCount := None, 0;
      pcs, acquired, released := seq(threads, _ => Outside), seq(threads, _ => 0), seq(threads, _ => 0);
    }

    method EnterCriticalSection(self: nat)
      requires CanEnter(CriticalSection(), self)
      modifies this`owner, this`recursionCount
      ensures CriticalSection() == Entering(old(CriticalSection()), self)
    {
      owner, recursionCount := Some(self), recursionCount + 1;
    }

    method TryEnterCriticalSection(self: nat) returns (entered: bool)
      modifies this`owner, this`recursionCount
      ensures entered == CanEnter(old(CriticalSection()), self)
      ensures CriticalSection() == if entered then Entering(old(CriticalSection()), self) else old(CriticalSection())
    {
      entered := owner == None || owner == Some(self);
      if entered {
        owner, recursionCount := Some(self), recursionCount + 1;
      }
    }

    method LeaveCriticalSection(self: nat)
      requires owner == Some(self)
      modifies this`owner, this`recursionCount
      ensures CriticalSection() == Leaving(old(CriticalSection()))
    {
      if recursionCount <= 1 {
        owner, recursionCount := None, 0;
      } else {
        recursionCount := recursionCount - 1;
      }
    }

    method Lock(self: nat) returns (rc: int)
      requires Enabled(View(), Step(self, Enter))
      modifies this
      ensures rc == 0 && View() == After(old(View()), Step(self, Enter))
      ensures CriticalSection() == Section(Some(self), old(recursionCount) + 1)
    {
      EnterCriticalSection(self);
      acquired := acquired[self := acquired[self] + 1];
      return 0;
    }

    /** Runs to its end without another thread in between. */
    method TryLock(self: nat) returns (rc: int)
      requires Inv(View()) && self < |pcs| && pcs[self].Outside?
      modifies this
      ensures IsRun(old(View()), TryLockSteps(old(View()), self))
      ensures View() == AfterRun(old(View()), TryLockSteps(old(View()), self))
      ensures Inv(View()) && pcs == old(pcs)
      ensures (rc == 0 || rc == EBUSY) && (rc == 0 <==> old(owner) == None)
      ensures CriticalSection() == if rc == 0 then Section(Some(self), 1) else old(CriticalSection())
    {
      ghost var s, found, steps := View(), CriticalSection(), [];
      var entered := TryEnterCriticalSection(self);
      if entered {
        OneStepMore(s, steps, Step(self, TryEnter));
        steps := steps + [Step(self, TryEnter)];
        pcs := pcs[self := Entered(found)];
        assert View() == AfterRun(s, steps);
        if recursionCount > 1 {
          OneStepMore(s, steps, Step(self, RefuseRecursion));
          steps := steps + [Step(self, RefuseRecursion)];
          pcs := pcs[self := Refusing(found)];
          assert View() == AfterRun(s, steps);
          OneStepMore(s, steps, Step(self, LeaveRefused));
          steps := steps + [Step(self, LeaveRefused)];
          LeaveCriticalSection(self);
          pcs := pcs[self := Outside];
          rc := EBUSY;
        } else {
          OneStepMore(s, steps, Step(self, KeepEntered));
          steps := steps + [Step(self, KeepEntered)];
          pcs := pcs[self := Outside];
          acquired := acquired[self := acquired[self] + 1];
          rc := 0;
        }
      } else {
        OneStepMore(s, steps, Step(self, TryEnterFails));
        steps := steps + [Step(self, TryEnterFails)];
        rc := EBUSY;
      }
      assert steps == TryLockSteps(s, self);
      RunKeepsInv(s, steps);
    }

    method Unlock(self: nat) returns (rc: int)
      requires Inv(View()) && Enabled(View(), Step(self, Action.Unlock))
      modifies this
      ensures rc == 0 && View() == After(old(View()), Step(self, Action.Unlock))
      ensures Inv(View()) && recursionCount == old(recursionCount) - 1
      ensures owner == if recursionCount == 0 then None else Some(self)
    {
      StepKeepsInv(View(), Step(self, Action.Unlock));
      LeaveCriticalSection(self);
      released := released[self := released[self] + 1];
      return 0;
    }
  }
}
