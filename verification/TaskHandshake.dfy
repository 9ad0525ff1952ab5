/**
 The completion handshake of drivers/pmsis_task.c. A task lives on the stack of
 the caller that waits for it; a driver releases it from an interrupt handler. The
 two interleave line by line. The kernel's semaphore is created by
 `__pi_task_block`, given by `pi_task_release` and deleted by `__pi_task_destroy`.
 */
module TaskHandshake {

  datatype Semaphore = Absent | Alive | Deleted

  // Where the releaser stands in `pi_task_release`.
  datatype Releaser = TestSem | Give | SetDone | Finished

  // Where the waiter stands: in the loop of `__pi_task_wait_on`, in the first of `calls`
  // remaining calls of `__pi_task_destroy`, or returned, its stack frame gone.
  datatype Waiter =
    | Spin
    | TestDestroy(calls: nat)
    | ClearDestroy(calls: nat)
    | TestSemObject(calls: nat)
    | DeleteSem(calls: nat)
    | Returned

  // `field` says that `wait_on.sem_object` is not NULL. `fault` records a semaphore
  // given or deleted while it does not exist, or a task used after its frame is gone;
  // `destroys` counts the calls of `__pi_task_destroy` that returned.
  datatype State = State(sem: Semaphore, field: bool, destroy: bool, done: bool,
                         releaser: Releaser, waiter: Waiter, gives: nat, deletions: nat, destroys: nat,
                         fault: bool)

  datatype Step = ReleaserStep | WaiterStep

  // `__pi_task_block`; the kernel may have no semaphore left.
  function Block(created: bool): State {
    State(if created then Alive else Absent, created, true, false, TestSem, Spin, 0, 0, 0, false)
  }

  // `pi_task_block_no_mutex`
  function BlockNoMutex(): State {
    State(Absent, false, false, false, TestSem, Spin, 0, 0, 0, false)
  }

  predicate Enabled(s: State, step: Step) {
    if step.ReleaserStep? then s.releaser != Finished else s.waiter != Returned
  }

  // Any access to the task after the waiter has returned is a fault.
  function ReleaserNext(s: State): State
    requires s.releaser != Finished
  {
    var s := s.(fault := s.fault || s.waiter == Returned);
    match s.releaser
    case TestSem => s.(releaser := if s.field then Give else SetDone)
    case Give => s.(releaser := SetDone, gives := s.gives + 1, fault := s.fault || s.sem != Alive)
    case SetDone => s.(releaser := Finished, done := true)
  }

  // The end of one call of `__pi_task_destroy`: the next one, or the return to the caller.
  function Destroyed(s: State, calls: nat): State {
    s.(waiter := if calls <= 1 then Returned else TestDestroy(calls - 1), destroys := s.destroys + 1)
  }

  // `calls`: the wait itself destroys the task, and callers do so once more.
  function WaiterNext(s: State, calls: nat): State
    requires s.waiter != Returned
  {
    match s.waiter
    case Spin => if s.done then s.(waiter := TestDestroy(calls)) else s
    case TestDestroy(k) => if s.destroy then s.(waiter := ClearDestroy(k)) else Destroyed(s, k)
    case ClearDestroy(k) => s.(waiter := TestSemObject(k), destroy := false)
    case TestSemObject(k) => if s.field then s.(waiter := DeleteSem(k)) else Destroyed(s, k)
    case DeleteSem(k) =>
      Destroyed(s.(sem := Deleted, field := false, deletions := s.deletions + 1, fault := s.fault || s.sem != Alive), k)
  }

  function Next(s: State, step: Step, calls: nat): State
    requires Enabled(s, step)
  {
    if step.ReleaserStep? then ReleaserNext(s) else WaiterNext(s, calls)
  }

  predicate IsRun(s: State, steps: seq<Step>, calls: nat)
    decreases steps
  {
    steps == [] || (Enabled(s, steps[0]) && IsRun(Next(s, steps[0], calls), steps[1..], calls))
  }

  function Run(s: State, steps: seq<Step>, calls: nat): State
    requires IsRun(s, steps, calls)
    decreases steps
  {
    if steps == [] then s else Run(Next(s, steps[0], calls), steps[1..], calls)
  }

  // The semaphore exists exactly while the task refers to it; the waiter leaves its
  // loop only after the releaser has finished.
  predicate Inv(s: State, created: bool, destroy: bool, calls: nat) {
    && !s.fault
    && (s.field <==> s.sem == Alive)
    && (s.done <==> s.releaser == Finished)
    && (s.waiter != Spin ==> s.done)
    && (s.releaser == Give ==> s.field)
    && (s.releaser == TestSem ==> s.gives == 0) && (s.releaser == Give ==> s.gives == 0)
    && (s.releaser in {SetDone, Finished} ==> s.gives == if created then 1 else 0)
    && (s.waiter.DeleteSem? ==> s.field)
    && (s.waiter.ClearDestroy? ==> s.destroy)
    && (s.waiter == Returned || s.waiter.TestSemObject? || s.waiter.DeleteSem? ==> !s.destroy)
    && (created ==> destroy)
    && (s.waiter == Spin ==> s.destroy == destroy)
    && (s.sem == if !created then Absent else if s.deletions == 0 then Alive else Deleted)
    && s.deletions <= 1
    && ((s.waiter.TestDestroy? && !s.destroy) || s.waiter == Returned ==> s.deletions == if created then 1 else 0)
    && (Undeleted(s) ==> s.deletions == 0)
    && s.destroys + CallsLeft(s.waiter, calls) == if calls == 0 then 1 else calls
  }

  // Calls of `__pi_task_destroy` that have not returned.
  function CallsLeft(w: Waiter, calls: nat): nat {
    match w
    case Spin => if calls == 0 then 1 else calls
    case Returned => 0
    case TestDestroy(k) => if k == 0 then 1 else k
    case ClearDestroy(k) => if k == 0 then 1 else k
    case TestSemObject(k) => if k == 0 then 1 else k
    case DeleteSem(k) => if k == 0 then 1 else k
  }

  // The waiter has not come past the deletion yet.
  predicate Undeleted(s: State) {
    match s.waiter
    case TestDestroy(_) => s.destroy
    case Returned => false
    case _ => true
  }

  lemma NextInv(s: State, step: Step, calls: nat, created: bool, destroy: bool)
    requires Inv(s, created, destroy, calls) && Enabled(s, step)
    ensures Inv(Next(s, step, calls), created, destroy, calls)
  {
  }

  lemma {:induction false} RunInv(s: State, steps: seq<Step>, calls: nat, created: bool, destroy: bool)
    requires Inv(s, created, destroy, calls) && IsRun(s, steps, calls)
    ensures Inv(Run(s, steps, calls), created, destroy, calls)
    decreases steps
  {
    if steps != [] {
      NextInv(s, steps[0], calls, created, destroy);
      RunInv(Next(s, steps[0], calls), steps[1..], calls, created, destroy);
    }
  }

  /** Whatever the interleaving and however often the task is destroyed: the semaphore is
      never given or deleted while it does not exist, the releaser never touches a task
      whose frame is gone, and when the waiter returns the semaphore was given once and
      deleted once. */
  lemma HandshakeSafe(created: bool, steps: seq<Step>, calls: nat)
    requires IsRun(Block(created), steps, calls)
    ensures var s := Run(Block(created), steps, calls);
      && !s.fault && s.deletions <= 1
      && (s.releaser == Give || s.waiter.DeleteSem? ==> s.sem == Alive)
      && (s.waiter == Returned ==> s.destroys == if calls == 0 then 1 else calls)
      && (s.waiter == Returned ==>
        && s.releaser == Finished && s.sem != Alive
        && s.gives == s.deletions == if created then 1 else 0)
  {
    RunInv(Block(created), steps, calls, created, true);
  }

  /** Without a semaphore the handshake is safe too, and nothing is given or deleted. */
  lemma NoMutexSafe(steps: seq<Step>, calls: nat)
    requires IsRun(BlockNoMutex(), steps, calls)
    ensures var s := Run(BlockNoMutex(), steps, calls);
      && !s.fault && s.gives == 0 && s.deletions == 0 && s.releaser != Give && !s.waiter.DeleteSem?
      && (s.waiter == Returned ==> s.releaser == Finished)
  {
    RunInv(BlockNoMutex(), steps, calls, false, false);
  }

  /** Once the task is released, every step brings the waiter closer to its return. */
  lemma WaiterProgress(s: State, calls: nat)
    requires s.done && s.waiter != Returned
    ensures Remaining(WaiterNext(s, calls).waiter, calls) < Remaining(s.waiter, calls)
  {
  }

  // Steps the waiter needs at most once the task is done.
  function Remaining(w: Waiter, calls: nat): nat {
    match w
    case Spin => 5 * calls + 6
    case TestDestroy(k) => 5 * k + 5
    case ClearDestroy(k) => 5 * k + 4
    case TestSemObject(k) => 5 * k + 3
    case DeleteSem(k) => 5 * k + 2
    case Returned => 0
  }
}
