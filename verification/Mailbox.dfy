/**
 The one-slot mailbox through which cluster cores hand tasks to the fabric
 controller (drivers/cluster/cl_to_fc_delegate.c). Every source line that touches
 shared state is one step; any number of cores and the interrupt handler
 interleave freely.
 */
module Mailbox {
  import opened Pmsis

  // Where a core stands in `pi_cl_send_task_to_fc`: the line it executes next.
  datatype Pc = Lock | Test | Wait | Write | Trigger | Unlock

  // `todo` are the tasks the core has yet to send, `event` is its sticky event bit.
  datatype Core = Core(pc: Pc, todo: seq<int>, event: bool)

  // Where the handler stands: `task` is the word it read from the slot.
  datatype Handler = Idle | Loaded(task: int) | Called(task: int) | Released(task: int) | Cleared

  datatype Call = Callback(task: int) | Push(task: int)

  datatype Message = Message(core: nat, task: int)

  // `slot` is `task_to_fc` (0 for NULL) and `irq` the latched interrupt; the last three
  // fields record what happened.
  datatype State = State(cores: seq<Core>, mutex: Option<nat>, slot: int, irq: bool, fc: Handler,
                         sent: seq<Message>, calls: seq<Call>, released: seq<int>)

  // A step of core `i`, of the handler, or a cluster event raised by another driver.
  datatype Label = CoreStep(i: nat) | FcStep | Spurious

  // The low bit of a task word marks a light callback.
  predicate IsLight(word: int) {
    word % 2 == 1
  }

  function Untag(word: int): int {
    word - word % 2
  }

  function CallOf(word: int): Call {
    if IsLight(word) then Callback(Untag(word)) else Push(word)
  }

  // ---------------------------------------------------------------- steps

  predicate Enabled(s: State, l: Label) {
    match l
    case CoreStep(i) =>
      i < |s.cores| &&
      (match s.cores[i].pc
       case Lock => s.cores[i].todo != [] && s.mutex == None
       case Wait => s.cores[i].event
       case Test => true
       case Write => s.cores[i].todo != []
       case Trigger => true
       case Unlock => true)
    case FcStep => s.fc != Idle || s.irq
    case Spurious => true
  }

  function SetPc(s: State, i: nat, pc: Pc): State
    requires i < |s.cores|
  {
    s.(cores := s.cores[i := s.cores[i].(pc := pc)])
  }

  function CoreNext(s: State, i: nat): State
    requires Enabled(s, CoreStep(i))
  {
    var c := s.cores[i];
    match c.pc
    case Lock => SetPc(s, i, Test).(mutex := Some(i))
    case Test => SetPc(s, i, if s.slot != 0 then Wait else Write)
    case Wait => s.(cores := s.cores[i := c.(pc := Test, event := false)])
    case Write =>
      s.(cores := s.cores[i := c.(pc := Trigger, todo := c.todo[1..])],
         slot := c.todo[0], sent := s.sent + [Message(i, c.todo[0])])
    case Trigger => SetPc(s, i, Unlock).(irq := true)
    case Unlock => SetPc(s, i, Lock).(mutex := None)
  }

  // The event reaches every core.
  function RaiseEvents(cores: seq<Core>): seq<Core> {
    seq(|cores|, i requires 0 <= i < |cores| => cores[i].(event := true))
  }

  function FcNext(s: State): State
    requires Enabled(s, FcStep)
  {
    match s.fc
    case Idle => s.(fc := Loaded(s.slot), irq := false)
    case Loaded(t) => s.(fc := Called(t), calls := s.calls + [CallOf(t)])
    case Called(t) => s.(fc := Released(t), released := s.released + [Untag(t)])
    case Released(t) => s.(fc := Cleared, slot := 0)
    case Cleared => s.(fc := Idle, cores := RaiseEvents(s.cores))
  }

  function Next(s: State, l: Label): State
    requires Enabled(s, l)
  {
    match l
    case CoreStep(i) => CoreNext(s, i)
    case FcStep => FcNext(s)
    case Spurious => s.(cores := RaiseEvents(s.cores))
  }

  predicate IsRun(s: State, ls: seq<Label>)
    decreases ls
  {
    ls == [] || (Enabled(s, ls[0]) && IsRun(Next(s, ls[0]), ls[1..]))
  }

  function Run(s: State, ls: seq<Label>): State
    requires IsRun(s, ls)
    decreases ls
  {
    if ls == [] then s else Run(Next(s, ls[0]), ls[1..])
  }

  // Every core is about to send its tasks; nothing is in flight. Task words are
  // non-null once their tag is removed.
  predicate Initial(s: State) {
    && (forall i :: 0 <= i < |s.cores| ==> s.cores[i].pc == Lock)
    && (forall i, k :: 0 <= i < |s.cores| && 0 <= k < |s.cores[i].todo| ==> Untag(s.cores[i].todo[k]) != 0)
    && s.mutex == None && s.slot == 0 && !s.irq && s.fc == Idle
    && s.sent == [] && s.calls == [] && s.released == []
  }

  // ---------------------------------------------------------------- invariant

  // The mutex holder's place in the code.
  predicate HolderAt(s: State, pc: Pc) {
    s.mutex.Some? && s.mutex.value < |s.cores| && s.cores[s.mutex.value].pc == pc
  }

  predicate MutexInv(s: State) {
    && (s.mutex.Some? ==> s.mutex.value < |s.cores| && s.cores[s.mutex.value].pc != Lock)
    && (forall i :: 0 <= i < |s.cores| && s.cores[i].pc != Lock ==> s.mutex == Some(i))
    && (forall i :: 0 <= i < |s.cores| && s.cores[i].pc in {Test, Wait, Write} ==> s.cores[i].todo != [])
  }

  // The handler holds the word in the slot.
  predicate Handling(s: State) {
    s.fc.Loaded? || s.fc.Called? || s.fc.Released?
  }

  predicate SlotInv(s: State) {
    && (HolderAt(s, Write) ==> s.slot == 0)
    && (HolderAt(s, Trigger) ==> s.slot != 0 && !s.irq && !Handling(s))
    && (Handling(s) ==> s.slot != 0 && s.slot == s.fc.task && !s.irq)
    && (s.irq ==> s.slot != 0)
    && (s.slot != 0 && !HolderAt(s, Trigger) ==> s.irq || Handling(s))
  }

  /** No wakeup is lost: a core that waits without its event bit while the slot is free
      is still to be woken by the running handler. */
  predicate WakeupInv(s: State) {
    forall i :: 0 <= i < |s.cores| && s.cores[i].pc == Wait && !s.cores[i].event && s.slot == 0 ==> s.fc == Cleared
  }

  // The task words in the order they were written.
  function Words(ms: seq<Message>): seq<int> {
    seq(|ms|, i requires 0 <= i < |ms| => ms[i].task)
  }

  function Untagged(ws: seq<int>): seq<int> {
    seq(|ws|, i requires 0 <= i < |ws| => Untag(ws[i]))
  }

  function CallsOf(ws: seq<int>): seq<Call> {
    seq(|ws|, i requires 0 <= i < |ws| => CallOf(ws[i]))
  }

  // The word in the slot, as long as it has not been released or called.
  function Unreleased(s: State): seq<int> {
    if s.slot != 0 && !s.fc.Released? then [s.slot] else []
  }

  function Uncalled(s: State): seq<int> {
    if s.slot != 0 && !s.fc.Called? && !s.fc.Released? then [s.slot] else []
  }

  // Everything written was called and released in order, except for a word still
  // in the slot.
  predicate DeliveryInv(s: State) {
    && Untagged(Words(s.sent)) == s.released + Untagged(Unreleased(s))
    && CallsOf(Words(s.sent)) == s.calls + CallsOf(Uncalled(s))
  }

  predicate TasksInv(s: State) {
    forall i, k :: 0 <= i < |s.cores| && 0 <= k < |s.cores[i].todo| ==> Untag(s.cores[i].todo[k]) != 0
  }

  predicate Inv(s: State) {
    MutexInv(s) && SlotInv(s) && WakeupInv(s) && DeliveryInv(s) && TasksInv(s)
  }

  lemma CoreMutex(s: State, i: nat)
    requires MutexInv(s) && Enabled(s, CoreStep(i))
    ensures MutexInv(CoreNext(s, i))
  {
  }

  lemma CoreSlot(s: State, i: nat)
    requires MutexInv(s) && SlotInv(s) && TasksInv(s) && Enabled(s, CoreStep(i))
    ensures SlotInv(CoreNext(s, i))
  {
  }

  lemma CoreWakeup(s: State, i: nat)
    requires MutexInv(s) && SlotInv(s) && WakeupInv(s) && Enabled(s, CoreStep(i))
    ensures WakeupInv(CoreNext(s, i))
  {
  }

  lemma WordsMore(ms: seq<Message>, m: Message)
    ensures Untagged(Words(ms + [m])) == Untagged(Words(ms)) + [Untag(m.task)]
    ensures CallsOf(Words(ms + [m])) == CallsOf(Words(ms)) + [CallOf(m.task)]
  {
    assert Words(ms + [m]) == Words(ms) + [m.task];
  }

  lemma OneWord(w: int)
    ensures Untagged([w]) == [Untag(w)] && CallsOf([w]) == [CallOf(w)]
    ensures Untagged([]) == [] && CallsOf([]) == []
  {
  }

  lemma CoreDelivery(s: State, i: nat)
    requires MutexInv(s) && SlotInv(s) && DeliveryInv(s) && TasksInv(s) && Enabled(s, CoreStep(i))
    ensures DeliveryInv(CoreNext(s, i))
  {
    if s.cores[i].pc == Write {
      var w := s.cores[i].todo[0];
      WordsMore(s.sent, Message(i, w));
      OneWord(w);
      assert HolderAt(s, Write) && w != 0;
      assert s.released + [] == s.released && s.calls + [] == s.calls;
    }
  }

  lemma CoreTasks(s: State, i: nat)
    requires TasksInv(s) && Enabled(s, CoreStep(i))
    ensures TasksInv(CoreNext(s, i))
  {
  }

  lemma FcDelivery(s: State)
    requires Inv(s) && Enabled(s, FcStep)
    ensures DeliveryInv(FcNext(s))
  {
    OneWord(s.slot);
    assert s.released + [] == s.released && s.calls + [] == s.calls;
  }

  lemma FcInv(s: State)
    requires Inv(s) && Enabled(s, FcStep)
    ensures Inv(FcNext(s))
  {
    hide DeliveryInv;
    FcDelivery(s);
  }

  lemma SpuriousInv(s: State)
    requires Inv(s)
    ensures Inv(Next(s, Spurious))
  {
  }

  lemma NextInv(s: State, l: Label)
    requires Inv(s) && Enabled(s, l)
    ensures Inv(Next(s, l))
  {
    match l
    case CoreStep(i) =>
      CoreMutex(s, i);
      CoreSlot(s, i);
      CoreWakeup(s, i);
      CoreDelivery(s, i);
      CoreTasks(s, i);
    case FcStep => FcInv(s);
    case Spurious => SpuriousInv(s);
  }

  lemma {:induction false} RunInv(s: State, ls: seq<Label>)
    requires Inv(s) && IsRun(s, ls)
    ensures Inv(Run(s, ls))
    decreases ls
  {
    if ls != [] {
      NextInv(s, ls[0]);
      RunInv(Next(s, ls[0]), ls[1..]);
    }
  }

  // ---------------------------------------------------------------- safety

  lemma InitialInv(s: State)
    requires Initial(s)
    ensures Inv(s)
  {
    OneWord(0);
  }

  // What `words` are owed when they are called and released in order: a word with the low bit
  // set runs the callback of the task without that bit, any other is pushed as it is; the
  // task released has the low bit cleared.
  ghost predicate Served(words: seq<int>, calls: seq<Call>, released: seq<int>) {
    && |released| <= |calls| <= |words|
    && (forall i :: 0 <= i < |calls| ==>
         calls[i] == if words[i] % 2 == 1 then Callback(words[i] - 1) else Push(words[i]))
    && (forall i :: 0 <= i < |released| ==> released[i] % 2 == 0 && 0 <= words[i] - released[i] <= 1)
  }

  lemma DeliveryServes(s: State)
    requires DeliveryInv(s)
    ensures Served(Words(s.sent), s.calls, s.released)
  {
    var ws, rest := Words(s.sent), Untagged(Unreleased(s));
    var due := CallsOf(Uncalled(s));
    assert |Untagged(ws)| == |ws| == |CallsOf(ws)| && |due| <= |rest|;
    assert forall i :: 0 <= i < |s.released| ==> (s.released + rest)[i] == s.released[i];
    assert forall i :: 0 <= i < |s.calls| ==> (s.calls + due)[i] == s.calls[i];
    assert forall i :: 0 <= i < |ws| ==> Untagged(ws)[i] == Untag(ws[i]) && CallsOf(ws)[i] == CallOf(ws[i]);
  }

  /** In every reachable state: a core that is about to write finds the slot empty, and
      what has been released is exactly what was written, in the order of writing, but
      for the word still in the slot. Likewise for callbacks and pushes. */
  lemma Delivery(s: State, ls: seq<Label>)
    requires Initial(s) && IsRun(s, ls)
    ensures var t := Run(s, ls);
      && (forall i :: 0 <= i < |t.cores| && t.cores[i].pc == Write ==> t.slot == 0)
      && Untagged(Words(t.sent)) == t.released + Untagged(Unreleased(t))
      && CallsOf(Words(t.sent)) == t.calls + CallsOf(Uncalled(t))
      && Served(Words(t.sent), t.calls, t.released) && |t.sent| <= |t.released| + 1
  {
    InitialInv(s);
    RunInv(s, ls);
    DeliveryServes(Run(s, ls));
    assert |Untagged(Words(Run(s, ls).sent))| == |Run(s, ls).sent|;
  }

  /** Whenever a core waits, its wakeup is still to come. */
  lemma WakeupPending(s: State, ls: seq<Label>, i: nat)
    requires Initial(s) && IsRun(s, ls)
    requires i < |Run(s, ls).cores| && Run(s, ls).cores[i].pc == Wait
    ensures var t := Run(s, ls);
      t.cores[i].event || t.irq || t.fc != Idle
  {
    InitialInv(s);
    RunInv(s, ls);
  }

  // The tasks core `i` has written.
  function WrittenBy(ms: seq<Message>, i: nat): seq<int> {
    if ms == [] then []
    else
      var m := ms[|ms| - 1];
      WrittenBy(ms[..|ms| - 1], i) + (if m.core == i then [m.task] else [])
  }

  // Each core has written a prefix of the tasks it had in `s` and keeps the rest.
  predicate Progress(s: State, t: State) {
    && |s.cores| == |t.cores|
    && forall i :: 0 <= i < |s.cores| ==> WrittenBy(t.sent, i) + t.cores[i].todo == s.cores[i].todo
  }

  lemma WrittenByMore(ms: seq<Message>, m: Message, i: nat)
    ensures WrittenBy(ms + [m], i) == WrittenBy(ms, i) + (if m.core == i then [m.task] else [])
  {
    assert (ms + [m])[..|ms|] == ms;
  }

  // Only a write changes what a core has left to send.
  lemma OthersKeep(t: State, l: Label, i: nat)
    requires Enabled(t, l) && i < |t.cores|
    requires !(l.CoreStep? && t.cores[l.i].pc == Write)
    ensures Next(t, l).sent == t.sent && |Next(t, l).cores| == |t.cores|
    ensures Next(t, l).cores[i].todo == t.cores[i].todo
  {
  }

  lemma MoveFirst(a: seq<int>, b: seq<int>)
    requires b != []
    ensures a + [b[0]] + b[1..] == a + b && a + [] + b == a + b
  {
  }

  lemma WriteMoves(t: State, k: nat, i: nat)
    requires Enabled(t, CoreStep(k)) && t.cores[k].pc == Write && i < |t.cores|
    ensures var u := CoreNext(t, k);
      && |u.cores| == |t.cores|
      && WrittenBy(u.sent, i) + u.cores[i].todo == WrittenBy(t.sent, i) + t.cores[i].todo
  {
    hide WrittenBy;
    var c := t.cores[k];
    var m := Message(k, c.todo[0]);
    WrittenByMore(t.sent, m, i);
    MoveFirst(WrittenBy(t.sent, i), c.todo);
  }

  lemma ProgressNext(s: State, t: State, l: Label)
    requires Progress(s, t) && Enabled(t, l)
    ensures Progress(s, Next(t, l))
  {
    hide Next, WrittenBy;
    NextCores(t, l);
    forall i | 0 <= i < |t.cores|
      ensures WrittenBy(Next(t, l).sent, i) + Next(t, l).cores[i].todo == s.cores[i].todo
    {
      if l.CoreStep? && t.cores[l.i].pc == Write {
        WriteMoves(t, l.i, i);
        NextIsCoreNext(t, l.i);
      } else {
        OthersKeep(t, l, i);
      }
    }
  }

  lemma NextIsCoreNext(t: State, i: nat)
    requires Enabled(t, CoreStep(i))
    ensures Next(t, CoreStep(i)) == CoreNext(t, i)
  {
  }

  lemma NextCores(t: State, l: Label)
    requires Enabled(t, l)
    ensures |Next(t, l).cores| == |t.cores|
  {
  }

  lemma {:induction false} ProgressRun(s: State, t: State, ls: seq<Label>)
    requires Progress(s, t) && IsRun(t, ls)
    ensures Progress(s, Run(t, ls))
    decreases ls
  {
    if ls != [] {
      ProgressNext(s, t, ls[0]);
      ProgressRun(s, Next(t, ls[0]), ls[1..]);
    }
  }

  // ---------------------------------------------------------------- liveness

  predicate Done(s: State) {
    && (forall i :: 0 <= i < |s.cores| ==> s.cores[i].pc == Lock && s.cores[i].todo == [])
    && s.fc == Idle && !s.irq && s.slot == 0
  }

  // Some core or the handler can move.
  predicate CanMove(s: State) {
    Enabled(s, FcStep) || exists i :: 0 <= i < |s.cores| && Enabled(s, CoreStep(i))
  }

  /** No deadlock: as long as anything is left to do, a core or the handler can move. */
  lemma NoDeadlock(s: State)
    requires Inv(s) && !Done(s)
    ensures CanMove(s)
  {
    if s.fc == Idle && !s.irq {
      if s.mutex.Some? {
        assert Enabled(s, CoreStep(s.mutex.value));
      } else {
        var i :| 0 <= i < |s.cores| && !(s.cores[i].pc == Lock && s.cores[i].todo == []);
        assert Enabled(s, CoreStep(i));
      }
    }
  }

  function Rank(pc: Pc): nat {
    match pc
    case Lock => 5
    case Test => 4
    case Wait => 3
    case Write => 3
    case Trigger => 7
    case Unlock => 6
  }

  // What a core with `n` cores around it may still cost.
  function CoreCost(c: Core, n: nat): nat {
    |c.todo| * (2 * n + 10) + Rank(c.pc) + if c.event then 2 else 0
  }

  function CoresCost(cores: seq<Core>, n: nat): nat {
    if cores == [] then 0 else CoreCost(cores[0], n) + CoresCost(cores[1..], n)
  }

  function FcCost(s: State): nat {
    var n := |s.cores|;
    (match s.fc
     case Idle => 0
     case Cleared => 2 * n + 1
     case Released(_) => 2 * n + 2
     case Called(_) => 2 * n + 3
     case Loaded(_) => 2 * n + 4)
    + if s.slot != 0 && !Handling(s) then 2 * n + 5 else 0
  }

  // A bound on the steps left.
  function Cost(s: State): nat {
    CoresCost(s.cores, |s.cores|) + FcCost(s)
  }

  lemma {:induction false} CoresCostUpdate(cores: seq<Core>, i: nat, c: Core, n: nat)
    requires i < |cores|
    ensures CoresCost(cores[i := c], n) == CoresCost(cores, n) - CoreCost(cores[i], n) + CoreCost(c, n)
    decreases cores
  {
    if i > 0 {
      assert cores[i := c][1..] == cores[1..][i - 1 := c];
      CoresCostUpdate(cores[1..], i - 1, c, n);
    } else {
      assert cores[i := c][1..] == cores[1..];
    }
  }

  lemma {:induction false} RaiseCost(cores: seq<Core>, n: nat)
    ensures CoresCost(RaiseEvents(cores), n) <= CoresCost(cores, n) + 2 * |cores|
    decreases cores
  {
    if cores != [] {
      assert RaiseEvents(cores)[1..] == RaiseEvents(cores[1..]);
      RaiseCost(cores[1..], n);
    }
  }

  lemma CoreKeepsOthers(s: State, i: nat)
    requires Enabled(s, CoreStep(i))
    ensures var t := CoreNext(s, i); |t.cores| == |s.cores| && t.cores == s.cores[i := t.cores[i]]
  {
  }

  // Writing raises the handler's cost by less than the core's cost drops.
  lemma OwnCostDrops(s: State, i: nat)
    requires Inv(s) && Enabled(s, CoreStep(i))
    ensures var t := CoreNext(s, i); var n := |s.cores|;
      |t.cores| == n && CoreCost(t.cores[i], n) + FcCost(t) < CoreCost(s.cores[i], n) + FcCost(s)
  {
    hide WakeupInv, DeliveryInv, TasksInv;
    var n, c := |s.cores|, s.cores[i];
    if c.pc == Write {
      assert HolderAt(s, Write);
      assert |c.todo| * (2 * n + 10) == (|c.todo| - 1) * (2 * n + 10) + (2 * n + 10);
    }
  }

  lemma CoreCostDrops(s: State, i: nat)
    requires Inv(s) && Enabled(s, CoreStep(i))
    ensures Cost(CoreNext(s, i)) < Cost(s)
  {
    hide CoresCost, CoreCost, MutexInv, WakeupInv, DeliveryInv, TasksInv;
    var t := CoreNext(s, i);
    var n := |s.cores|;
    CoreKeepsOthers(s, i);
    CoresCostUpdate(s.cores, i, t.cores[i], n);
    OwnCostDrops(s, i);
  }

  /** Every step of a core or of the handler uses up some of the cost. */
  lemma CostDrops(s: State, l: Label)
    requires Inv(s) && Enabled(s, l)
    ensures if l == Spurious then Cost(Next(s, l)) <= Cost(s) + 2 * |s.cores| else Cost(Next(s, l)) < Cost(s)
  {
    hide Inv, CoresCost, CoreCost;
    match l
    case CoreStep(i) => CoreCostDrops(s, i);
    case FcStep => FcCostDrops(s);
    case Spurious => RaiseCost(s.cores, |s.cores|);
  }

  lemma FcCostDrops(s: State)
    requires Inv(s) && Enabled(s, FcStep)
    ensures Cost(FcNext(s)) < Cost(s)
  {
    RaiseCost(s.cores, |s.cores|);
  }

  function SpuriousSteps(ls: seq<Label>): (n: nat)
    ensures n == multiset(ls)[Spurious]
  {
    if ls == [] then 0
    else
      assert ls == [ls[0]] + ls[1..];
      (if ls[0] == Spurious then 1 else 0) + SpuriousSteps(ls[1..])
  }

  /** Every run is finite, whatever the scheduler does: its length is bounded by the
      initial cost and the number of foreign events. */
  lemma {:induction false} RunBound(s: State, ls: seq<Label>)
    requires Inv(s) && IsRun(s, ls)
    ensures |Run(s, ls).cores| == |s.cores|
    ensures |ls| + Cost(Run(s, ls)) <= Cost(s) + SpuriousSteps(ls) * (2 * |s.cores| + 1)
    decreases ls
  {
    hide Inv, Next, Cost, Enabled;
    if ls != [] {
      var t := Next(s, ls[0]);
      CostDrops(s, ls[0]);
      NextInv(s, ls[0]);
      NextCores(s, ls[0]);
      RunBound(t, ls[1..]);
      var k, w := SpuriousSteps(ls[1..]), 2 * |s.cores| + 1;
      assert (k + 1) * w == k * w + w;
    }
  }

  lemma {:induction false} CoresCostBound(cores: seq<Core>, n: nat, k: nat)
    requires forall i :: 0 <= i < |cores| ==> |cores[i].todo| <= k && cores[i].pc == Lock
    ensures CoresCost(cores, n) <= |cores| * (k * (2 * n + 10) + 7)
    decreases cores
  {
    if cores != [] {
      CoresCostBound(cores[1..], n, k);
      TimesMono(|cores[0].todo|, k, 2 * n + 10);
      AddOne(|cores| - 1, k * (2 * n + 10) + 7);
    }
  }

  lemma TimesMono(x: nat, y: nat, p: nat)
    requires x <= y
    ensures x * p <= y * p
  {
  }

  lemma AddOne(x: nat, p: int)
    ensures (x + 1) * p == x * p + p
  {
  }

  /** In numbers: `n` cores with at most `k` tasks each take at most so many steps, and those
      that foreign events add. */
  lemma RunLength(s: State, ls: seq<Label>, k: nat)
    requires Initial(s) && IsRun(s, ls)
    requires forall i :: 0 <= i < |s.cores| ==> |s.cores[i].todo| <= k
    ensures var n := |s.cores|;
      |ls| <= n * (k * (2 * n + 10) + 7) + multiset(ls)[Spurious] * (2 * n + 1)
  {
    hide CoresCost, Run, IsRun;
    InitialInv(s);
    RunBound(s, ls);
    CoresCostBound(s.cores, |s.cores|, k);
  }

  /** So every run can be driven to completion, and when no core and not the handler can
      move, every task of every core has been written in its order and released once. */
  lemma AllDelivered(s: State, ls: seq<Label>)
    requires Initial(s) && IsRun(s, ls) && !CanMove(Run(s, ls))
    ensures var t := Run(s, ls);
      && Done(t)
      && t.released == Untagged(Words(t.sent)) && t.calls == CallsOf(Words(t.sent))
      && Served(Words(t.sent), t.calls, t.released) && |t.released| == |t.calls| == |t.sent|
      && |t.cores| == |s.cores|
      && forall i :: 0 <= i < |s.cores| ==> WrittenBy(t.sent, i) == s.cores[i].todo
  {
    var t := Run(s, ls);
    InitialInv(s);
    RunInv(s, ls);
    if !Done(t) {
      NoDeadlock(t);
    }
    assert forall i :: 0 <= i < |s.cores| ==> WrittenBy(s.sent, i) + s.cores[i].todo == s.cores[i].todo;
    ProgressRun(s, s, ls);
    forall i | 0 <= i < |s.cores| ensures WrittenBy(t.sent, i) == s.cores[i].todo {
      assert WrittenBy(t.sent, i) + [] == WrittenBy(t.sent, i);
    }
    OneWord(0);
    assert t.released + [] == t.released && t.calls + [] == t.calls;
    DeliveryServes(t);
  }
}
