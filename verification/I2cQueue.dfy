/**
 The I2C driver's bookkeeping as a value: one transfer in the slot, a queue of pending
 ones, the flags that say what must still follow the transfer, and the bytes queued on the
 transmit channel so far. I2c.dfy proves that drivers/i2c.c does these steps. Transfers of
 more than 255 bytes are started with 255 of them; the continuation is not finished in the
 source, so the rest is never sent.
 */
module I2cQueue {
  import opened Pmsis
  import opened I2cStream
  import opened Words

  const NO_STOP: bv32 := 1
  const NO_START: bv32 := 2
  const MAX_SIZE := 255

  // `bytes` is what the buffer of a write holds.
  datatype Transfer<T> = Transfer(task: T, slave: Slave, buf: int, size: nat, flags: bv32,
                                  isRead: bool, bytes: seq<int>)
  {
    // An empty read is given up without a trace.
    predicate Dropped() { isRead && size == 0 }

    predicate Stops() { flags & NO_STOP == 0 }

    predicate Starts() { flags & NO_START == 0 }

    predicate Valid() {
      slave.Valid() && (if isRead then bytes == [] else |bytes| == size)
    }

    // The transfer fits one command.
    predicate Short() { size <= MAX_SIZE }

    // The bytes it is started with.
    function Part(): nat {
      if size > MAX_SIZE then MAX_SIZE else size
    }

    function FirstBytes(): seq<int> {
      if |bytes| > MAX_SIZE then bytes[..MAX_SIZE] else bytes
    }

    // Queued on the transmit channel when the transfer starts.
    function Stream(): seq<int> {
      if isRead then ReadCommands(slave, Part()) else WriteCommands(slave, Part(), Starts()) + FirstBytes()
    }

    // Opened on the receive channel when the transfer starts.
    function Receives(): seq<Window> {
      if isRead then [Window(buf, Part())] else []
    }

    // Buffers queued on the transmit channel when the transfer starts: commands, and data.
    function Buffers(): nat {
      if isRead || size == 0 then 1 else 2
    }

    // What the transfer asks for on the bus.
    function Meaning(): seq<Bus>
      requires !Dropped()
    {
      if isRead then ReadMeaning(slave, size) else WriteMeaning(slave, bytes, Starts())
    }

    // What it does on the bus.
    function Effect(): seq<Bus>
      requires !Dropped()
    {
      if isRead then ReadMeaning(slave, Part()) else WriteMeaning(slave, FirstBytes(), Starts())
    }
  }

  /** The two flags as the interface numbers them. */
  lemma FlagBits<T>(t: Transfer<T>)
    ensures t.Stops() <==> t.flags & 0x1 == 0
    ensures t.Starts() <==> t.flags & 0x2 == 0
  {
  }

  // A buffer opened on the receive channel.
  datatype Window = Window(buf: int, size: nat)

  // struct i2c_pending_transfer_s: buffer, size of the next part, size of the present part
  // while more is to follow, what is left, and the flags.
  datatype Pending = Pending(buf: int, size: int, repeat: int, left: int, flags: bv32)

  // `taken` are the transfers taken from callers or the queue, dropped ones included;
  // `trailed` records that the trailer of the transfer in the slot was queued, `unsignalled`
  // counts the buffers queued on the transmit channel whose interrupt is still to come.
  datatype Driver<T> = Driver(slot: Option<Transfer<T>>, queue: seq<Transfer<T>>,
                              pending: Pending, stopSend: bool, eotSend: bool, trailed: bool, unsignalled: nat, wait: int,
                              wire: seq<int>, windows: seq<Window>,
                              taken: seq<Transfer<T>>, completed: seq<Transfer<T>>)

  datatype Event<T> = Submit(t: Transfer<T>) | TxEvent | EotEvent

  function Idle<T>(wait: int): Driver<T> {
    Driver(None, [], Pending(0, 0, 0, 0, 0), false, false, false, 0, wait, [], [], [], [])
  }

  // What is noted about a transfer that starts.
  function Started<T>(d: Driver<T>, t: Transfer<T>): Driver<T> {
    if t.Short() then d.(pending := d.pending.(repeat := 0), stopSend := t.Stops(), eotSend := true)
    else d.(pending := d.pending.(buf := t.buf, repeat := MAX_SIZE, left := t.size, flags := t.flags))
  }

  // `__pi_i2c_copy_exec_read` and `__pi_i2c_copy_exec_write`
  function Exec<T>(d: Driver<T>, t: Transfer<T>): Driver<T> {
    if t.Dropped() then d.(taken := d.taken + [t])
    else
      Started(d, t).(slot := Some(t), trailed := false, unsignalled := d.unsignalled + t.Buffers(),
                     wire := d.wire + t.Stream(),
                     windows := d.windows + t.Receives(), taken := d.taken + [t])
  }

  // `__pi_i2c_copy`
  function Accept<T>(d: Driver<T>, t: Transfer<T>): Driver<T> {
    if d.slot == None then Exec(d, t) else d.(queue := d.queue + [t])
  }

  // `__pi_i2c_handle_pending_transfer`, which queues nothing
  function Continued<T>(d: Driver<T>): Driver<T> {
    var p := d.pending.(buf := Wrap(d.pending.buf + d.pending.repeat), left := Wrap(d.pending.left - d.pending.repeat),
                        size := d.pending.repeat);
    if p.left <= p.repeat
    then d.(pending := p.(repeat := 0, size := p.left), stopSend := p.flags & NO_STOP == 0)
    else d.(pending := p)
  }

  // A trailer goes to the transmit channel, which will signal it.
  function Trailed<T>(d: Driver<T>, stop: bool): Driver<T> {
    d.(stopSend := false, eotSend := false, trailed := true, unsignalled := d.unsignalled + 1,
       wire := d.wire + Trailer(stop, d.wait))
  }

  // `__pi_i2c_tx_handler`
  function TxEnded<T>(d: Driver<T>): Driver<T> {
    if d.pending.repeat != 0 then Continued(d)
    else if d.stopSend then Trailed(d, true)
    else if d.eotSend then Trailed(d, false)
    else d
  }

  // The transmit channel signals one of its buffers.
  function Signalled<T>(d: Driver<T>): Driver<T>
    requires d.unsignalled > 0
  {
    TxEnded(d.(unsignalled := d.unsignalled - 1))
  }

  function Cleared<T>(d: Driver<T>): Driver<T> {
    d.(slot := None, trailed := false, completed := d.completed + InFlight(d))
  }

  // `__pi_i2c_eot_handler`
  function Ended<T>(d: Driver<T>): Driver<T> {
    var e := Cleared(d);
    if e.queue == [] then e else Exec(e.(queue := e.queue[1..]), e.queue[0])
  }

  // The end interrupt answers the EOT command of the trailer: it needs a transfer whose
  // trailer was queued. It may come before the transmit interrupts still outstanding.
  predicate CanEnd<T>(d: Driver<T>) {
    d.slot.Some? && d.trailed
  }

  function Next<T>(d: Driver<T>, e: Event<T>): Driver<T> {
    match e
    case Submit(t) => Accept(d, t)
    case TxEvent => if d.unsignalled > 0 then Signalled(d) else d
    case EotEvent => if CanEnd(d) then Ended(d) else d
  }

  function Run<T>(d: Driver<T>, es: seq<Event<T>>): Driver<T>
    decreases es
  {
    if es == [] then d else Run(Next(d, es[0]), es[1..])
  }

  function Submissions<T>(es: seq<Event<T>>): seq<Transfer<T>> {
    if es == [] then []
    else (if es[0].Submit? then [es[0].t] else []) + Submissions(es[1..])
  }

  function InFlight<T>(d: Driver<T>): seq<Transfer<T>> {
    if d.slot.Some? then [d.slot.value] else []
  }

  // ---------------------------------------------------------------- what is kept

  // The transfers that were not dropped.
  function Performed<T>(ts: seq<Transfer<T>>): seq<Transfer<T>> {
    if ts == [] then []
    else Performed(ts[..|ts| - 1]) + (if ts[|ts| - 1].Dropped() then [] else [ts[|ts| - 1]])
  }

  // What a completed transfer put on the transmit channel.
  function Frame<T>(t: Transfer<T>, wait: int): seq<int> {
    t.Stream() + Trailer(t.Stops(), wait)
  }

  function Frames<T>(ts: seq<Transfer<T>>, wait: int): seq<int> {
    if ts == [] then [] else Frames(ts[..|ts| - 1], wait) + Frame(ts[|ts| - 1], wait)
  }

  function Windows<T>(ts: seq<Transfer<T>>): seq<Window> {
    if ts == [] then [] else Windows(ts[..|ts| - 1]) + ts[|ts| - 1].Receives()
  }

  // The transfer in the slot, its trailer included once it was queued.
  function Current<T>(d: Driver<T>): seq<int> {
    if d.slot == None then [] else if d.trailed then Frame(d.slot.value, d.wait) else d.slot.value.Stream()
  }

  // What is noted about a short transfer, and about a long one while parts of it are
  // counted down and afterwards.
  predicate NotedFor<T>(d: Driver<T>, t: Transfer<T>) {
    if t.Short()
    then
      && d.pending.repeat == 0 && d.eotSend == !d.trailed && d.stopSend == (!d.trailed && t.Stops())
      && (!d.trailed ==> d.unsignalled > 0)
    else
      && !d.eotSend && d.pending.flags == t.flags
      && (if d.pending.repeat != 0
          then d.pending.repeat == MAX_SIZE < d.pending.left < WORD && !d.stopSend && !d.trailed
          else d.stopSend == (!d.trailed && t.Stops()) && (d.trailed ==> t.Stops()))
  }

  predicate FlagsKept<T>(d: Driver<T>) {
    match d.slot
    case None => d.pending.repeat == 0 && !d.stopSend && !d.eotSend && !d.trailed
    case Some(t) => !t.Dropped() && t.size < WORD && NotedFor(d, t)
  }

  // Nothing is lost or repeated; every channel carries what the performed transfers ask for,
  // in the order they were taken.
  ghost predicate Accounts<T>(d: Driver<T>, submitted: seq<Transfer<T>>) {
    && FlagsKept(d) && AllWords(d.queue)
    && multiset(d.taken) + multiset(d.queue) == multiset(submitted)
    && d.completed + InFlight(d) == Performed(d.taken)
    && d.wire == Frames(d.completed, d.wait) + Current(d)
    && d.windows == Windows(Performed(d.taken))
  }

  // Sizes are 32-bit words.
  predicate AllWords<T>(ts: seq<Transfer<T>>) {
    forall i :: 0 <= i < |ts| ==> ts[i].size < WORD
  }

  // A free slot means an empty queue.
  predicate Settled<T>(d: Driver<T>) {
    d.slot == None ==> d.queue == []
  }

  lemma AppendTaken<T>(ts: seq<Transfer<T>>, t: Transfer<T>, wait: int)
    ensures Performed(ts + [t]) == Performed(ts) + if t.Dropped() then [] else [t]
    ensures Frames(ts + [t], wait) == Frames(ts, wait) + Frame(t, wait)
    ensures Windows(ts + [t]) == Windows(ts) + t.Receives()
  {
    assert (ts + [t])[..|ts|] == ts;
  }

  lemma ExecAccounts<T>(d: Driver<T>, submitted: seq<Transfer<T>>, t: Transfer<T>)
    requires Accounts(d, submitted) && d.slot == None && t.size < WORD
    ensures Accounts(Exec(d, t), submitted + [t])
  {
    hide Performed, Frames, Windows, Frame, Trailer;
    AppendTaken(d.taken, t, d.wait);
    AppendTaken(Performed(d.taken), t, d.wait);
    var e := Exec(d, t);
    assert multiset(e.taken) + multiset(e.queue) == multiset(submitted + [t]);
    if !t.Dropped() {
      assert d.completed + [] + [t] == d.completed + [t];
      assert d.wire == Frames(d.completed, d.wait) + [] == Frames(d.completed, d.wait);
    } else {
      assert Performed(d.taken) + [] == Performed(d.taken);
    }
  }

  // The transmit interrupt queues the trailer.
  predicate Trailing<T>(d: Driver<T>) {
    d.slot.Some? && d.pending.repeat == 0 && (d.stopSend || d.eotSend)
  }

  lemma TxFlags<T>(d: Driver<T>)
    requires FlagsKept(d) && d.unsignalled > 0
    ensures var e := Signalled(d);
      && FlagsKept(e) && e.slot == d.slot && e.queue == d.queue && e.taken == d.taken && e.completed == d.completed
      && e.windows == d.windows && e.wait == d.wait
      && e.wire == d.wire + (if Trailing(d) then Trailer(d.slot.value.Stops(), d.wait) else [])
      && Current(e) == Current(d) + (if Trailing(d) then Trailer(d.slot.value.Stops(), d.wait) else [])
      && e.unsignalled == (if Trailing(d) then d.unsignalled else d.unsignalled - 1)
      && (e.trailed <==> d.trailed || Trailing(d))
  {
    hide Trailer;
    assert d.wire + [] == d.wire && Current(d) + [] == Current(d);
  }

  lemma TxAccounts<T>(d: Driver<T>, submitted: seq<Transfer<T>>)
    requires Accounts(d, submitted) && d.unsignalled > 0
    ensures Accounts(Signalled(d), submitted)
  {
    hide Performed, Frames, Windows, Trailer, FlagsKept, AllWords, Frame, Signalled;
    TxFlags(d);
    Associate(Frames(d.completed, d.wait), Current(d), if Trailing(d) then Trailer(d.slot.value.Stops(), d.wait) else []);
    assert d.wire + [] == d.wire;
  }

  lemma ClearedAccounts<T>(d: Driver<T>, submitted: seq<Transfer<T>>)
    requires Accounts(d, submitted) && CanEnd(d)
    ensures Accounts(Cleared(d), submitted)
  {
    hide Performed, Frames, Windows, Frame, Trailer;
    AppendTaken(d.completed, d.slot.value, d.wait);
    assert d.completed + [d.slot.value] + [] == d.completed + [d.slot.value];
  }

  lemma TakeCount<A>(taken: seq<A>, t: A, queue: seq<A>, submitted: seq<A>, rest: seq<A>)
    requires multiset(taken) + multiset([t] + queue) == multiset(submitted)
    requires multiset(rest) == multiset(submitted) - multiset{t}
    ensures multiset(taken) + multiset(queue) == multiset(rest)
  {
  }

  lemma WordsOfBoth<T>(a: seq<Transfer<T>>, b: seq<Transfer<T>>)
    ensures AllWords(a + b) <==> AllWords(a) && AllWords(b)
  {
    if AllWords(a + b) {
      assert forall i :: 0 <= i < |a| ==> a[i] == (a + b)[i];
      assert forall i :: 0 <= i < |b| ==> b[i] == (a + b)[|a| + i];
    }
  }

  lemma WordsOfOne<T>(t: Transfer<T>)
    ensures AllWords([t]) <==> t.size < WORD
  {
    assert [t][0] == t;
  }

  // Nothing but the queue itself depends on what waits.
  lemma SameSlot<T>(d: Driver<T>, q: seq<Transfer<T>>)
    ensures var e := d.(queue := q); FlagsKept(e) == FlagsKept(d) && Current(e) == Current(d)
  {
    hide Trailer, Frame;
  }

  lemma TakeAccounts<T>(d: Driver<T>, submitted: seq<Transfer<T>>, rest: seq<Transfer<T>>)
    requires Accounts(d, submitted) && d.queue != []
    requires multiset(rest) == multiset(submitted) - multiset{d.queue[0]}
    ensures Accounts(d.(queue := d.queue[1..]), rest)
  {
    hide Performed, Frames, Windows, Frame, Trailer, FlagsKept, AllWords, Current;
    var t := d.queue[0];
    assert d.queue == [t] + d.queue[1..];
    SameSlot(d, d.queue[1..]);
    TakeCount(d.taken, t, d.queue[1..], submitted, rest);
    WordsOfBoth([t], d.queue[1..]);
  }

  // Only how often each transfer was submitted matters.
  lemma SameAccounts<T>(d: Driver<T>, submitted: seq<Transfer<T>>, other: seq<Transfer<T>>)
    requires Accounts(d, submitted) && multiset(submitted) == multiset(other)
    ensures Accounts(d, other)
  {
  }

  lemma NextAccounts<T>(d: Driver<T>, submitted: seq<Transfer<T>>, e: Event<T>)
    requires Accounts(d, submitted) && (e.Submit? ==> e.t.size < WORD)
    ensures Accounts(Next(d, e), submitted + (if e.Submit? then [e.t] else []))
  {
    hide Accounts;
    assert submitted + [] == submitted;
    match e
    case Submit(t) =>
      if d.slot == None {
        ExecAccounts(d, submitted, t);
      } else {
        QueueAccounts(d, submitted, t);
      }
    case TxEvent =>
      if d.unsignalled > 0 {
        TxAccounts(d, submitted);
      }
    case EotEvent =>
      if CanEnd(d) {
        EndAccounts(d, submitted);
      }
  }

  lemma QueueAccounts<T>(d: Driver<T>, submitted: seq<Transfer<T>>, t: Transfer<T>)
    requires Accounts(d, submitted) && t.size < WORD
    ensures Accounts(d.(queue := d.queue + [t]), submitted + [t])
  {
    hide Performed, Frames, Windows, Frame, Trailer, FlagsKept, AllWords, Current;
    SameSlot(d, d.queue + [t]);
    WordsOfBoth(d.queue, [t]);
    WordsOfOne(t);
    assert multiset(d.queue + [t]) == multiset(d.queue) + multiset([t]);
  }

  lemma AccountsCount<T>(d: Driver<T>, submitted: seq<Transfer<T>>)
    requires Accounts(d, submitted)
    ensures FlagsKept(d) && AllWords(d.queue) && multiset(d.taken) + multiset(d.queue) == multiset(submitted)
  {
  }

  lemma EndAccounts<T>(d: Driver<T>, submitted: seq<Transfer<T>>)
    requires Accounts(d, submitted) && CanEnd(d)
    ensures Accounts(Ended(d), submitted)
  {
    hide Accounts, Exec;
    ClearedAccounts(d, submitted);
    var e := Cleared(d);
    if e.queue != [] {
      var t := e.queue[0];
      var rest := e.taken + e.queue[1..];
      AccountsCount(e, submitted);
      assert e.queue == [t] + e.queue[1..];
      TakeAccounts(e, submitted, rest);
      ExecAccounts(e.(queue := e.queue[1..]), rest, t);
      SameAccounts(Ended(d), rest + [t], submitted);
    }
  }

  lemma WordsSplit<T>(es: seq<Event<T>>)
    requires es != [] && AllWords(Submissions(es))
    ensures AllWords(Submissions(es[1..])) && (es[0].Submit? ==> es[0].t.size < WORD)
  {
    hide AllWords;
    WordsOfBoth(if es[0].Submit? then [es[0].t] else [], Submissions(es[1..]));
    if es[0].Submit? {
      WordsOfOne(es[0].t);
    }
  }

  lemma {:induction false} RunAccountsFrom<T>(d: Driver<T>, submitted: seq<Transfer<T>>, es: seq<Event<T>>)
    requires Accounts(d, submitted) && AllWords(Submissions(es))
    ensures Accounts(Run(d, es), submitted + Submissions(es))
    decreases es
  {
    hide Accounts, Next;
    if es == [] {
      assert submitted + [] == submitted;
    } else {
      var more := if es[0].Submit? then [es[0].t] else [];
      WordsSplit(es);
      NextAccounts(d, submitted, es[0]);
      RunAccountsFrom(Next(d, es[0]), submitted + more, es[1..]);
      assert submitted + more + Submissions(es[1..]) == submitted + Submissions(es);
    }
  }

  /** Over every run of submissions and interrupts no transfer is lost or duplicated, at most
      one is in flight, and the transmit channel carries exactly the frames of the completed
      transfers followed by the one in flight. */
  lemma RunAccounts<T>(wait: int, es: seq<Event<T>>)
    requires AllWords(Submissions(es))
    ensures Accounts(Run(Idle(wait), es), Submissions(es))
  {
    RunAccountsFrom<T>(Idle(wait), [], es);
    assert [] + Submissions(es) == Submissions(es);
  }

  // ---------------------------------------------------------------- the bus

  function FrameEffect<T>(t: Transfer<T>, wait: int): seq<Bus>
    requires !t.Dropped()
  {
    t.Effect() + TrailerMeaning(t.Stops(), wait)
  }

  // What transfers and their trailers do on the bus.
  function Effects<T>(ts: seq<Transfer<T>>, wait: int): seq<Bus>
    requires forall i :: 0 <= i < |ts| ==> !ts[i].Dropped()
  {
    if ts == [] then []
    else Effects(ts[..|ts| - 1], wait) + FrameEffect(ts[|ts| - 1], wait)
  }

  function CurrentEffect<T>(d: Driver<T>): seq<Bus>
    requires d.slot.Some? ==> !d.slot.value.Dropped()
  {
    if d.slot == None then []
    else d.slot.value.Effect() + (if d.trailed then TrailerMeaning(d.slot.value.Stops(), d.wait) else [])
  }

  predicate AllValid<T>(ts: seq<Transfer<T>>) {
    forall i :: 0 <= i < |ts| ==> ts[i].Valid()
  }

  predicate AllPerformed<T>(ts: seq<Transfer<T>>) {
    forall i :: 0 <= i < |ts| ==> !ts[i].Dropped()
  }

  lemma StreamPerforms<T>(t: Transfer<T>, rest: seq<int>)
    requires t.Valid() && !t.Dropped()
    ensures Interpret(t.Stream() + rest) == t.Effect() + Interpret(rest)
  {
    hide Interpret;
    if t.isRead {
      ReadPerforms(t.slave, t.Part(), rest);
    } else {
      WritePerforms(t.slave, t.FirstBytes(), t.Starts(), rest);
    }
  }

  lemma {:induction false} FramesPerform<T>(ts: seq<Transfer<T>>, wait: int, rest: seq<int>)
    requires AllValid(ts) && AllPerformed(ts)
    ensures Interpret(Frames(ts, wait) + rest) == Effects(ts, wait) + Interpret(rest)
  {
    hide Interpret, Frame, FrameEffect;
    if ts == [] {
      assert [] + rest == rest;
    } else {
      var front, t := ts[..|ts| - 1], ts[|ts| - 1];
      FramesPerform(front, wait, Frame(t, wait) + rest);
      FramePerforms(t, wait, rest);
      assert Frames(ts, wait) + rest == Frames(front, wait) + (Frame(t, wait) + rest);
      assert Effects(ts, wait) == Effects(front, wait) + FrameEffect(t, wait);
      Associate(Effects(front, wait), FrameEffect(t, wait), Interpret(rest));
    }
  }

  lemma Associate<A>(a: seq<A>, b: seq<A>, c: seq<A>)
    ensures a + b + c == a + (b + c)
  {
  }

  lemma FramePerforms<T>(t: Transfer<T>, wait: int, rest: seq<int>)
    requires t.Valid() && !t.Dropped()
    ensures Interpret(Frame(t, wait) + rest) == FrameEffect(t, wait) + Interpret(rest)
  {
    hide Interpret, Trailer, TrailerMeaning;
    var end := Trailer(t.Stops(), wait);
    StreamPerforms(t, end + rest);
    TrailerPerforms(t.Stops(), wait, rest);
    Associate(t.Stream(), end, rest);
    Associate(t.Effect(), TrailerMeaning(t.Stops(), wait), Interpret(rest));
  }

  lemma {:induction false} PerformedAll<T>(ts: seq<Transfer<T>>)
    requires AllValid(ts)
    ensures AllPerformed(Performed(ts)) && AllValid(Performed(ts))
  {
    if ts != [] {
      PerformedAll(ts[..|ts| - 1]);
    }
  }

  lemma TakenValid<T>(taken: seq<Transfer<T>>, queue: seq<Transfer<T>>, submitted: seq<Transfer<T>>)
    requires AllValid(submitted) && multiset(taken) + multiset(queue) == multiset(submitted)
    ensures AllValid(taken)
  {
    forall i | 0 <= i < |taken| ensures taken[i].Valid() {
      assert taken[i] in multiset(taken) + multiset(queue);
    }
  }

  /** A transfer does what it asks for if and only if it has at most 255 bytes. */
  lemma MeantExactly<T>(t: Transfer<T>)
    requires t.Valid() && !t.Dropped()
    ensures t.Effect() == t.Meaning() <==> t.Short()
    ensures |t.Meaning()| - |t.Effect()| == if t.Short() then 0 else t.size - MAX_SIZE
  {
  }

  /** Over every run, the command interpreter that reads the transmit channel performs the
      first 255 bytes of the completed transfers, each closed by its trailer, and then those
      of the one in flight: nothing else, and never a malformed command. */
  lemma RunPerforms<T>(wait: int, es: seq<Event<T>>)
    requires AllValid(Submissions(es)) && AllWords(Submissions(es))
    ensures var d := Run(Idle(wait), es);
      && FlagsKept(d) && AllPerformed(d.completed)
      && Interpret(d.wire) == Effects(d.completed, d.wait) + CurrentEffect(d)
  {
    hide Run, Submissions, Performed, Interpret, Frames, Effects, Trailer, TrailerMeaning, Current, CurrentEffect,
      FlagsKept, AllWords, AllValid, AllPerformed, Windows;
    var d := Run(Idle(wait), es);
    RunAccounts<T>(wait, es);
    TakenValid(d.taken, d.queue, Submissions(es));
    PerformedAll(d.taken);
    ValidOfBoth(d.completed, InFlight(d));
    SlotPerformed(d);
    FramesPerform(d.completed, d.wait, Current(d));
    CurrentPerforms(d);
  }

  lemma ValidOfBoth<T>(a: seq<Transfer<T>>, b: seq<Transfer<T>>)
    ensures AllValid(a + b) ==> AllValid(a) && AllValid(b)
    ensures AllPerformed(a + b) ==> AllPerformed(a) && AllPerformed(b)
  {
    assert forall i :: 0 <= i < |a| ==> a[i] == (a + b)[i];
    assert forall i :: 0 <= i < |b| ==> b[i] == (a + b)[|a| + i];
  }

  lemma SlotPerformed<T>(d: Driver<T>)
    requires FlagsKept(d)
    ensures d.slot.Some? ==> !d.slot.value.Dropped()
  {
  }

  lemma NothingAfter<A>(s: seq<A>)
    ensures s + [] == s
  {
  }

  lemma CurrentPerforms<T>(d: Driver<T>)
    requires FlagsKept(d) && AllValid(InFlight(d))
    ensures Interpret(Current(d)) == CurrentEffect(d)
  {
    hide Trailer, TrailerMeaning, NotedFor;
    if d.slot.Some? {
      var t := d.slot.value;
      assert t == InFlight(d)[0];
      var end := if d.trailed then Trailer(t.Stops(), d.wait) else [];
      StreamPerforms(t, end);
      TrailerPerforms(t.Stops(), d.wait, []);
      NothingAfter(Trailer(t.Stops(), d.wait));
      NothingAfter(TrailerMeaning(t.Stops(), d.wait));
      NothingAfter(t.Stream());
    }
  }

  // ---------------------------------------------------------------- completion

  predicate Interrupts<T>(es: seq<Event<T>>) {
    forall i :: 0 <= i < |es| ==> !es[i].Submit?
  }

  // Transmit interrupts until the trailer is queued, which a long transfer counts its parts
  // by.
  function TxNeeded<T>(d: Driver<T>): nat
    requires d.slot.Some? && FlagsKept(d)
  {
    if d.trailed then 0 else if d.pending.repeat != 0 then (d.pending.left + 254) / 255 else 1
  }

  // The trailer was queued, or will be by interrupts whose buffers are queued.
  predicate WillEnd<T>(d: Driver<T>)
    requires d.slot.Some? && FlagsKept(d)
  {
    d.trailed || ((d.slot.value.Short() || d.slot.value.Stops()) && TxNeeded(d) <= d.unsignalled)
  }

  lemma TxCounts<T>(d: Driver<T>)
    requires d.slot.Some? && FlagsKept(d) && !d.trailed && d.unsignalled > 0
    requires d.slot.value.Short() || d.slot.value.Stops()
    ensures var e := Signalled(d);
      && e.slot == d.slot && FlagsKept(e) && TxNeeded(e) == TxNeeded(d) - 1
      && (!e.trailed ==> e.unsignalled == d.unsignalled - 1)
  {
    hide Trailer;
  }

  lemma {:induction false} Trails<T>(d: Driver<T>) returns (es: seq<Event<T>>)
    requires d.slot.Some? && FlagsKept(d) && WillEnd(d)
    ensures Interrupts(es) && CanEnd(Run(d, es)) && Run(d, es).slot == d.slot
    decreases TxNeeded(d)
  {
    if d.trailed {
      es := [];
    } else {
      hide FlagsKept, Signalled;
      NeedsSome(d);
      TxCounts(d);
      var rest := Trails(Signalled(d));
      es := [TxEvent] + rest;
      assert es[1..] == rest && Run(d, es) == Run(Next(d, es[0]), es[1..]);
    }
  }

  lemma NeedsSome<T>(d: Driver<T>)
    requires d.slot.Some? && FlagsKept(d) && !d.trailed
    ensures TxNeeded(d) > 0
  {
  }

  lemma NeverTrailed<T>(d: Driver<T>, e: Event<T>)
    requires d.slot.Some? && FlagsKept(d) && !WillEnd(d)
    ensures var f := Next(d, e);
      !CanEnd(d) && f.slot == d.slot && FlagsKept(f) && !WillEnd(f) && f.completed == d.completed
  {
    hide Trailer;
    if e.TxEvent? && d.unsignalled > 0 && d.slot.value.Stops() {
      TxCounts(d);
    }
  }

  /** A transfer whose trailer needs more transmit interrupts than there are buffers to signal,
      or that has more than 255 bytes and must not stop the bus, is never completed, whatever
      is submitted or signalled; everything behind it waits. */
  lemma {:induction false} LongBlocks<T>(d: Driver<T>, es: seq<Event<T>>)
    requires d.slot.Some? && FlagsKept(d) && !WillEnd(d)
    ensures var f := Run(d, es);
      !CanEnd(f) && f.slot == d.slot && FlagsKept(f) && f.completed == d.completed
    decreases es
  {
    hide FlagsKept, Next, WillEnd;
    NeverTrailed(d, if es == [] then TxEvent else es[0]);
    if es != [] {
      LongBlocks(Next(d, es[0]), es[1..]);
    }
  }

  /** Interrupts can complete the transfer in flight if and only if it will end. */
  lemma EndsExactly<T>(d: Driver<T>)
    requires d.slot.Some? && FlagsKept(d)
    ensures (exists es :: Interrupts(es) && Run(d, es).slot == d.slot && CanEnd(Run(d, es))) <==> WillEnd(d)
  {
    if WillEnd(d) {
      var es := Trails(d);
    } else {
      forall es: seq<Event<T>> ensures !CanEnd(Run(d, es)) {
        LongBlocks(d, es);
      }
    }
  }

  /** A transfer that starts can be completed if and only if it has at most 255 bytes, or it
      stops the bus and has at most 255 bytes for each buffer still to be signalled, its own
      included. */
  lemma StartedEnds<T>(d: Driver<T>, t: Transfer<T>)
    requires d.slot == None && FlagsKept(d) && !t.Dropped() && t.size < WORD
    ensures FlagsKept(Exec(d, t))
    ensures WillEnd(Exec(d, t)) <==> t.Short() || (t.Stops() && t.size <= 255 * (d.unsignalled + t.Buffers()))
  {
    hide ReadCommands, WriteCommands;
  }

  /** With no buffer left over from before: beyond 255 bytes no read is ever completed, and a
      write only up to 510 bytes and if it stops the bus. */
  lemma LongEndsExactly<T>(d: Driver<T>, t: Transfer<T>)
    requires d.slot == None && FlagsKept(d) && !t.Dropped() && t.size < WORD && d.unsignalled == 0
    ensures (exists es :: Interrupts(es) && Run(Exec(d, t), es).slot == Some(t) && CanEnd(Run(Exec(d, t), es))) <==>
            t.Short() || (!t.isRead && t.Stops() && t.size <= 510)
  {
    hide FlagsKept, WillEnd, Interrupts, Run, CanEnd;
    StartedEnds(d, t);
    EndsExactly(Exec(d, t));
  }
}
