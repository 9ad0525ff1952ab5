/**
 The order in which the I2C driver takes transfers. An empty read is given up without using
 the slot, so the end handler may leave a free slot with others waiting; then nothing but a
 new submission starts a transfer, and that one overtakes. `RunOrderExactly` says for every
 run when the order of submission is kept.
 */
module I2cOrder {
  import opened Pmsis
  import opened I2cStream
  import opened I2cQueue
  import opened Words

  /** The end handler leaves a free slot only with an empty queue, except when the transfer it
      takes is an empty read and others wait behind it. */
  lemma SettledExactly<T>(d: Driver<T>)
    requires CanEnd(d)
    ensures Settled(Ended(d)) <==> (|d.queue| <= 1 || !d.queue[0].Dropped())
  {
  }

  // Nothing but the count of outstanding interrupts differs.
  predicate SameTransfers<T(==)>(d: Driver<T>, e: Driver<T>) {
    e == d.(unsignalled := e.unsignalled)
  }

  lemma UnsettledNext<T>(d: Driver<T>, e: Event<T>)
    requires FlagsKept(d) && !Settled(d) && !e.Submit?
    ensures SameTransfers(d, Next(d, e)) && FlagsKept(Next(d, e)) && !Settled(Next(d, e))
  {
  }

  /** After that no interrupt starts the waiting transfers. */
  lemma {:induction false} Stalled<T>(d: Driver<T>, es: seq<Event<T>>)
    requires FlagsKept(d) && !Settled(d) && Interrupts(es)
    ensures SameTransfers(d, Run(d, es))
    decreases es
  {
    if es != [] {
      assert !es[0].Submit?;
      UnsettledNext(d, es[0]);
      Stalled(Next(d, es[0]), es[1..]);
    }
  }

  // One write and one read of nothing.
  function OneByte(n: int, byte: int): Transfer<int> {
    Transfer(n, Slave(0, 0), 0, 1, 0, false, [byte])
  }

  function NoBytes(): Transfer<int> {
    Transfer(0, Slave(0, 0), 0, 0, 0, true, [])
  }

  // The driver that has just taken the empty read, with one transfer behind it.
  lemma StallReached()
    ensures var d := Next(Next(Next(Idle(1), Submit(OneByte(1, 5))), Submit(NoBytes())), Submit(OneByte(1, 5)));
      var e := Next(Next(d, TxEvent), EotEvent);
      e.slot == None && e.queue == [OneByte(1, 5)] && e.taken == [OneByte(1, 5), NoBytes()]
  {
    hide Trailer, WriteCommands;
    var first, read := OneByte(1, 5), NoBytes();
    var a := Next(Idle(1), Submit(first));
    assert a.slot == Some(first) && a.queue == [] && a.taken == [first] && a.pending.repeat == 0 && a.eotSend && a.stopSend;
    assert a.unsignalled == 2;
    var d := Next(Next(a, Submit(read)), Submit(first));
    assert d == a.(queue := [read, first]);
    var t := Next(d, TxEvent);
    assert CanEnd(t) && t.queue == [read, first] && t.taken == [first];
    assert Cleared(t).queue[1..] == [first];
  }

  /** And a later submission overtakes them: the second write is taken before the first. */
  lemma OvertakeExample()
    ensures var first, second := OneByte(1, 5), OneByte(2, 6);
      var d := Run(Idle(1), [Submit(first), Submit(NoBytes()), Submit(first), TxEvent, EotEvent, Submit(second)]);
      d.taken == [first, NoBytes(), second] && d.queue == [first]
  {
    hide Run, Accept, Signalled, Ended, OneByte, NoBytes, CanEnd;
    var first, second := OneByte(1, 5), OneByte(2, 6);
    RunSix(Idle(1), [Submit(first), Submit(NoBytes()), Submit(first), TxEvent, EotEvent, Submit(second)]);
    StallReached();
    var e := Next(Next(Next(Next(Next(Idle(1), Submit(first)), Submit(NoBytes())), Submit(first)), TxEvent), EotEvent);
    SecondTaken(e);
  }

  lemma SecondTaken(e: Driver<int>)
    requires e.slot == None
    ensures var f := Next(e, Submit(OneByte(2, 6))); f.taken == e.taken + [OneByte(2, 6)] && f.queue == e.queue
  {
  }

  lemma RunSix<T>(d: Driver<T>, es: seq<Event<T>>)
    requires |es| == 6
    ensures Run(d, es) == Next(Next(Next(Next(Next(Next(d, es[0]), es[1]), es[2]), es[3]), es[4]), es[5])
  {
    hide Next;
    var d2 := Next(Next(d, es[0]), es[1]);
    RunTwo(d, es);
    RunTwo(d2, es[2..]);
    assert es[2..][2..] == es[4..] && es[2..][0] == es[2] && es[2..][1] == es[3];
    RunTwo(Next(Next(d2, es[2]), es[3]), es[4..]);
    assert es[4..][2..] == [] && es[4..][0] == es[4] && es[4..][1] == es[5];
  }

  lemma RunTwo<T>(d: Driver<T>, es: seq<Event<T>>)
    requires |es| >= 2
    ensures Run(d, es) == Run(Next(Next(d, es[0]), es[1]), es[2..])
  {
    hide Next;
    assert es[1..][1..] == es[2..] && es[1..][0] == es[1];
    assert Run(d, es) == Run(Next(d, es[0]), es[1..]);
  }

  // ---------------------------------------------------------------- when order is kept

  // No submission of the run finds a free slot while others wait.
  ghost predicate NoneOvertaken<T>(d: Driver<T>, es: seq<Event<T>>)
    decreases es
  {
    es == [] || ((es[0].Submit? ==> Settled(d)) && NoneOvertaken(Next(d, es[0]), es[1..]))
  }

  // This event makes the end handler take an empty read with others behind it.
  predicate Stalls<T>(d: Driver<T>, e: Event<T>) {
    e.EotEvent? && CanEnd(d) && |d.queue| > 1 && d.queue[0].Dropped()
  }

  // Once the driver has stalled, nothing is submitted any more.
  ghost predicate StallsLast<T>(d: Driver<T>, es: seq<Event<T>>)
    decreases es
  {
    es == [] || ((Stalls(d, es[0]) ==> Interrupts(es[1..])) && StallsLast(Next(d, es[0]), es[1..]))
  }

  lemma StepSettled<T>(d: Driver<T>, e: Event<T>)
    requires Settled(d)
    ensures Settled(Next(d, e)) <==> !Stalls(d, e)
  {
    if e.EotEvent? && CanEnd(d) {
      SettledExactly(d);
    }
  }

  // An unsettled driver stays so until something is submitted.
  lemma {:induction false} UnsettledOvertakes<T>(d: Driver<T>, es: seq<Event<T>>)
    requires FlagsKept(d) && !Settled(d)
    ensures NoneOvertaken(d, es) <==> Interrupts(es)
    ensures Interrupts(es) ==> StallsLast(d, es)
    decreases es
  {
    if es != [] {
      if !es[0].Submit? {
        UnsettledNext(d, es[0]);
        UnsettledOvertakes(Next(d, es[0]), es[1..]);
        assert forall i :: 1 <= i < |es| ==> es[i] == es[1..][i - 1];
      }
    }
  }

  lemma FlagsNext<T>(d: Driver<T>, e: Event<T>)
    requires FlagsKept(d) && AllWords(d.queue) && (e.Submit? ==> e.t.size < WORD)
    ensures FlagsKept(Next(d, e)) && AllWords(Next(d, e).queue)
  {
    hide Continued;
    match e
    case Submit(t) =>
      WordsOfBoth(d.queue, [t]);
      WordsOfOne(t);
    case TxEvent =>
      if d.unsignalled > 0 {
        TxFlags(d);
      }
    case EotEvent =>
      if d.queue != [] {
        assert d.queue == [d.queue[0]] + d.queue[1..];
      }
  }

  /** Overtaking happens exactly when something is submitted after the end handler took an
      empty read with others waiting behind it. */
  lemma {:induction false} OvertakenExactly<T>(d: Driver<T>, es: seq<Event<T>>)
    requires FlagsKept(d) && Settled(d) && AllWords(d.queue) && AllWords(Submissions(es))
    ensures NoneOvertaken(d, es) <==> StallsLast(d, es)
    decreases es
  {
    hide FlagsKept, Settled, Next, Stalls, AllWords;
    if es != [] {
      var e := Next(d, es[0]);
      WordsSplit(es);
      StepSettled(d, es[0]);
      FlagsNext(d, es[0]);
      if Settled(e) {
        OvertakenExactly(e, es[1..]);
      } else {
        UnsettledOvertakes(e, es[1..]);
      }
    }
  }

  lemma ExecKeeps<T>(d: Driver<T>, t: Transfer<T>)
    ensures var e := Exec(d, t);
      && e.queue == d.queue && e.taken == d.taken + [t]
      && e.slot == (if t.Dropped() then d.slot else Some(t)) && e.completed == d.completed
  {
  }

  lemma NextKeepsOrder<T>(d: Driver<T>, submitted: seq<Transfer<T>>, e: Event<T>)
    requires d.taken + d.queue == submitted && (e.Submit? ==> Settled(d))
    ensures Next(d, e).taken + Next(d, e).queue == submitted + (if e.Submit? then [e.t] else [])
  {
    hide Exec;
    assert submitted + [] == submitted;
    match e
    case Submit(t) =>
      ExecKeeps(d, t);
      Associate(d.taken, d.queue, [t]);
      assert d.queue == [] ==> d.taken + [] == d.taken && d.taken + [t] + [] == d.taken + [t];
    case TxEvent =>
    case EotEvent =>
      if d.queue != [] {
        assert d.queue == [d.queue[0]] + d.queue[1..];
        ExecKeeps(Cleared(d).(queue := d.queue[1..]), d.queue[0]);
        Associate(d.taken, [d.queue[0]], d.queue[1..]);
      }
  }

  // What the first event adds to the submissions.
  lemma SubmissionsSplit<T>(submitted: seq<Transfer<T>>, es: seq<Event<T>>)
    requires es != []
    ensures submitted + Submissions(es) == submitted + (if es[0].Submit? then [es[0].t] else []) + Submissions(es[1..])
  {
  }

  /** A run in which no submission overtakes takes the transfers in the order of their
      submission. */
  lemma {:induction false} OrderKept<T>(d: Driver<T>, submitted: seq<Transfer<T>>, es: seq<Event<T>>)
    requires d.taken + d.queue == submitted && NoneOvertaken(d, es)
    ensures Run(d, es).taken + Run(d, es).queue == submitted + Submissions(es)
    decreases es
  {
    hide Next, Settled;
    if es == [] {
      assert submitted + [] == submitted;
    } else {
      NextKeepsOrder(d, submitted, es[0]);
      SubmissionsSplit(submitted, es);
      OrderKept(Next(d, es[0]), submitted + (if es[0].Submit? then [es[0].t] else []), es[1..]);
    }
  }

  lemma TakenNext<T>(d: Driver<T>, e: Event<T>)
    ensures |d.taken| <= |Next(d, e).taken| && Next(d, e).taken[..|d.taken|] == d.taken
  {
    hide Started;
    assert forall t :: (d.taken + [t])[..|d.taken|] == d.taken;
  }

  lemma PrefixOfPrefix<A>(a: seq<A>, b: seq<A>, c: seq<A>)
    requires |a| <= |b| <= |c| && b[..|a|] == a && c[..|b|] == b
    ensures c[..|a|] == a
  {
    assert c[..|b|][..|a|] == c[..|a|];
  }

  lemma {:induction false} TakenGrows<T>(d: Driver<T>, es: seq<Event<T>>)
    ensures |d.taken| <= |Run(d, es).taken| && Run(d, es).taken[..|d.taken|] == d.taken
    decreases es
  {
    hide Next;
    if es == [] {
      assert d.taken[..|d.taken|] == d.taken;
    } else {
      var e := Next(d, es[0]);
      TakenNext(d, es[0]);
      TakenGrows(e, es[1..]);
      PrefixOfPrefix(d.taken, e.taken, Run(e, es[1..]).taken);
    }
  }

  predicate Distinct<T(==)>(s: seq<Transfer<T>>) {
    forall i, j :: 0 <= i < j < |s| ==> s[i] != s[j]
  }

  // A transfer that overtakes another stays in front of it.
  lemma OvertakenForGood<T>(d: Driver<T>, submitted: seq<Transfer<T>>, es: seq<Event<T>>)
    requires es != [] && es[0].Submit? && !Settled(d)
    requires d.taken + d.queue == submitted && Distinct(submitted + Submissions(es))
    ensures Run(d, es).taken + Run(d, es).queue != submitted + Submissions(es)
  {
    var k, t, all := |d.taken|, es[0].t, submitted + Submissions(es);
    var e := Next(d, es[0]);
    assert e.taken == d.taken + [t];
    TakenGrows(e, es[1..]);
    assert Run(d, es) == Run(e, es[1..]);
    assert Run(e, es[1..]).taken[k] == Run(e, es[1..]).taken[..k + 1][k] == t;
    assert all[k] == d.queue[0] && all[|submitted|] == t && k < |submitted|;
  }

  /** For transfers that can be told apart, the order of submission is kept if and only if no
      submission overtakes. */
  lemma {:induction false} OrderExactlyFrom<T>(d: Driver<T>, submitted: seq<Transfer<T>>, es: seq<Event<T>>)
    requires d.taken + d.queue == submitted && Distinct(submitted + Submissions(es))
    ensures Run(d, es).taken + Run(d, es).queue == submitted + Submissions(es) <==> NoneOvertaken(d, es)
    decreases es
  {
    hide Next, Settled, Distinct;
    if es == [] {
      assert submitted + [] == submitted;
    } else if es[0].Submit? && !Settled(d) {
      OvertakenForGood(d, submitted, es);
    } else {
      NextKeepsOrder(d, submitted, es[0]);
      SubmissionsSplit(submitted, es);
      OrderExactlyFrom(Next(d, es[0]), submitted + (if es[0].Submit? then [es[0].t] else []), es[1..]);
    }
  }

  // ---------------------------------------------------------------- numbered submissions

  // The n-th submission of a run, told apart from all others.
  function Tag<T>(t: Transfer<T>, n: nat): Transfer<(nat, T)> {
    Transfer((n, t.task), t.slave, t.buf, t.size, t.flags, t.isRead, t.bytes)
  }

  function Plain<T>(t: Transfer<(nat, T)>): Transfer<T> {
    Transfer(t.task.1, t.slave, t.buf, t.size, t.flags, t.isRead, t.bytes)
  }

  function Number<T>(es: seq<Event<T>>, n: nat): (fs: seq<Event<(nat, T)>>)
    ensures |fs| == |es|
  {
    if es == [] then []
    else
      match es[0]
      case Submit(t) => [Submit(Tag(t, n))] + Number(es[1..], n + 1)
      case TxEvent => [TxEvent] + Number(es[1..], n)
      case EotEvent => [EotEvent] + Number(es[1..], n)
  }

  function PlainAll<T>(ts: seq<Transfer<(nat, T)>>): (r: seq<Transfer<T>>)
    ensures |r| == |ts| && forall i :: 0 <= i < |ts| ==> r[i] == Plain(ts[i])
  {
    seq(|ts|, i requires 0 <= i < |ts| => Plain(ts[i]))
  }

  function PlainEvent<T>(e: Event<(nat, T)>): Event<T> {
    match e
    case Submit(t) => Submit(Plain(t))
    case TxEvent => TxEvent
    case EotEvent => EotEvent
  }

  function PlainDriver<T>(d: Driver<(nat, T)>): Driver<T> {
    Driver(if d.slot.Some? then Some(Plain(d.slot.value)) else None, PlainAll(d.queue), d.pending, d.stopSend, d.eotSend, d.trailed,
           d.unsignalled, d.wait, d.wire, d.windows, PlainAll(d.taken), PlainAll(d.completed))
  }

  lemma PlainMore<T>(ts: seq<Transfer<(nat, T)>>, t: Transfer<(nat, T)>)
    ensures PlainAll(ts + [t]) == PlainAll(ts) + [Plain(t)]
    ensures ts != [] ==> PlainAll(ts)[1..] == PlainAll(ts[1..]) && PlainAll(ts)[0] == Plain(ts[0])
    ensures PlainAll(ts) == [] <==> ts == []
  {
  }

  lemma PlainSame<T>(t: Transfer<(nat, T)>)
    ensures Plain(t).Dropped() == t.Dropped() && Plain(t).Stops() == t.Stops() && Plain(t).Short() == t.Short()
    ensures Plain(t).Stream() == t.Stream() && Plain(t).Receives() == t.Receives() && Plain(t).Buffers() == t.Buffers()
  {
  }

  lemma PlainStarted<T>(d: Driver<(nat, T)>, t: Transfer<(nat, T)>)
    ensures Started(PlainDriver(d), Plain(t)).pending == Started(d, t).pending
    ensures Started(PlainDriver(d), Plain(t)).stopSend == Started(d, t).stopSend
    ensures Started(PlainDriver(d), Plain(t)).eotSend == Started(d, t).eotSend
  {
    hide PlainAll;
    PlainSame(t);
  }

  lemma PlainExec<T>(d: Driver<(nat, T)>, t: Transfer<(nat, T)>)
    ensures PlainDriver(Exec(d, t)) == Exec(PlainDriver(d), Plain(t))
  {
    hide PlainAll;
    PlainSame(t);
    PlainMore(d.taken, t);
    if !t.Dropped() {
      PlainStarted(d, t);
    }
  }

  lemma PlainContinued<T>(d: Driver<(nat, T)>)
    ensures PlainDriver(Continued(d)) == Continued(PlainDriver(d))
  {
    hide PlainAll, Wrap, Plain;
  }

  lemma PlainTx<T>(d: Driver<(nat, T)>)
    requires d.unsignalled > 0
    ensures PlainDriver(Signalled(d)) == Signalled(PlainDriver(d))
  {
    hide Trailer, PlainAll, Continued, Plain;
    PlainContinued(d.(unsignalled := d.unsignalled - 1));
  }

  lemma PlainSettled<T>(d: Driver<(nat, T)>)
    ensures Settled(PlainDriver(d)) == Settled(d)
  {
  }

  // The driver does not look at the numbers.
  lemma PlainNext<T>(d: Driver<(nat, T)>, e: Event<(nat, T)>)
    ensures PlainDriver(Next(d, e)) == Next(PlainDriver(d), PlainEvent(e))
  {
    hide Exec, Signalled, Ended, PlainAll;
    match e
    case Submit(t) =>
      PlainExec(d, t);
      PlainMore(d.queue, t);
    case TxEvent =>
      if d.unsignalled > 0 {
        PlainTx(d);
      }
    case EotEvent =>
      if CanEnd(d) {
        PlainEnded(d);
      }
  }

  lemma PlainEnded<T>(d: Driver<(nat, T)>)
    requires d.slot.Some?
    ensures PlainDriver(Ended(d)) == Ended(PlainDriver(d))
  {
    hide Exec;
    var e := Cleared(d);
    PlainMore(d.completed, d.slot.value);
    assert PlainDriver(e) == Cleared(PlainDriver(d));
    if e.queue != [] {
      PlainMore(e.queue, e.queue[0]);
      PlainExec(e.(queue := e.queue[1..]), e.queue[0]);
      assert PlainDriver(e.(queue := e.queue[1..])) == PlainDriver(e).(queue := PlainDriver(e).queue[1..]);
    }
  }

  lemma NumberHead<T>(es: seq<Event<T>>, n: nat)
    requires es != []
    ensures var fs := Number(es, n);
      && PlainEvent(fs[0]) == es[0] && fs[0].Submit? == es[0].Submit?
      && fs[1..] == Number(es[1..], if es[0].Submit? then n + 1 else n)
  {
  }

  // Numbering changes neither the run nor who overtakes.
  lemma {:induction false} PlainRun<T>(d: Driver<(nat, T)>, es: seq<Event<T>>, n: nat)
    ensures PlainDriver(Run(d, Number(es, n))) == Run(PlainDriver(d), es)
    ensures NoneOvertaken(d, Number(es, n)) == NoneOvertaken(PlainDriver(d), es)
    decreases es
  {
    hide Next, Settled, Number, PlainDriver, PlainEvent;
    if es == [] {
      assert Number(es, n) == [];
    } else {
      var fs := Number(es, n);
      NumberHead(es, n);
      PlainNext(d, fs[0]);
      PlainSettled(d);
      PlainRun(Next(d, fs[0]), es[1..], if es[0].Submit? then n + 1 else n);
    }
  }

  lemma {:induction false} NumberAt<T>(es: seq<Event<T>>, n: nat, i: nat)
    requires i < |Submissions(Number(es, n))|
    ensures Submissions(Number(es, n))[i].task.0 == n + i
    decreases es
  {
    var fs := Number(es, n);
    NumberHead(es, n);
    SubmissionsSplit([], fs);
    if es[0].Submit? {
      assert fs[0].t == Tag(es[0].t, n) && Submissions(fs) == [fs[0].t] + Submissions(fs[1..]);
      if i > 0 {
        NumberAt(es[1..], n + 1, i - 1);
      }
    } else {
      assert Submissions(fs) == Submissions(fs[1..]);
      NumberAt(es[1..], n, i);
    }
  }

  lemma NumbersDistinct<T>(es: seq<Event<T>>)
    ensures Distinct(Submissions(Number(es, 0)))
  {
    hide Number, Submissions;
    var s := Submissions(Number(es, 0));
    forall i, j | 0 <= i < j < |s| ensures s[i] != s[j] {
      NumberAt(es, 0, i);
      NumberAt(es, 0, j);
    }
  }

  /** Over every run, with the submissions numbered so that equal ones can be told apart: they
      are taken in the order of their submission if and only if nothing is submitted after the
      end handler took an empty read with others waiting behind it. The numbers do not
      influence the driver. */
  lemma RunOrderExactly<T>(wait: int, es: seq<Event<T>>)
    requires AllWords(Submissions(es))
    ensures var d := Run(Idle(wait), Number(es, 0));
      && PlainDriver(d) == Run(Idle(wait), es)
      && (d.taken + d.queue == Submissions(Number(es, 0)) <==> StallsLast(Idle(wait), es))
  {
    hide Run, Submissions, Number, NoneOvertaken, StallsLast;
    assert AllWords<T>([]);
    var start: Driver<(nat, T)> := Idle(wait);
    var s := Submissions(Number(es, 0));
    assert PlainDriver(start) == Idle<T>(wait);
    PlainRun(start, es, 0);
    NumbersDistinct(es);
    assert [] + s == s;
    OrderExactlyFrom(start, [], Number(es, 0));
    OvertakenExactly<T>(Idle(wait), es);
  }

  // ---------------------------------------------------------------- without empty reads

  lemma SubmissionsPerformed<T>(es: seq<Event<T>>)
    requires AllPerformed(Submissions(es)) && es != []
    ensures AllPerformed(Submissions(es[1..]))
    ensures es[0].Submit? ==> !es[0].t.Dropped()
  {
    hide AllPerformed;
    AllOfBoth(if es[0].Submit? then [es[0].t] else [], Submissions(es[1..]));
    AllOfOne(es[0]);
  }

  lemma AllOfOne<T>(e: Event<T>)
    ensures e.Submit? ==> (AllPerformed([e.t]) <==> !e.t.Dropped())
  {
    if e.Submit? && AllPerformed([e.t]) {
      assert !([e.t])[0].Dropped();
    }
  }

  lemma AllOfBoth<T>(a: seq<Transfer<T>>, b: seq<Transfer<T>>)
    ensures AllPerformed(a + b) <==> AllPerformed(a) && AllPerformed(b)
  {
    if AllPerformed(a + b) {
      assert forall i :: 0 <= i < |a| ==> a[i] == (a + b)[i];
      assert forall i :: 0 <= i < |b| ==> b[i] == (a + b)[|a| + i];
    }
  }

  lemma {:induction false} NoEmptyReads<T>(d: Driver<T>, es: seq<Event<T>>)
    requires Settled(d) && AllPerformed(d.queue) && AllPerformed(Submissions(es))
    ensures Settled(Run(d, es)) && NoneOvertaken(d, es)
    decreases es
  {
    hide Next, AllPerformed, Settled;
    if es != [] {
      SubmissionsPerformed(es);
      NextPerformed(d, es[0]);
      NoEmptyReads(Next(d, es[0]), es[1..]);
    }
  }

  lemma NextPerformed<T>(d: Driver<T>, e: Event<T>)
    requires Settled(d) && AllPerformed(d.queue) && (e.Submit? ==> !e.t.Dropped())
    ensures Settled(Next(d, e)) && AllPerformed(Next(d, e).queue)
  {
    hide Exec;
    match e
    case Submit(t) =>
      ExecKeeps(d, t);
      AllOfBoth(d.queue, [t]);
      AllOfOne(e);
    case TxEvent =>
    case EotEvent =>
      if d.queue != [] {
        assert d.queue == [d.queue[0]] + d.queue[1..];
        ExecKeeps(Cleared(d).(queue := d.queue[1..]), d.queue[0]);
        AllOfBoth([d.queue[0]], d.queue[1..]);
      }
  }

  /** In particular without empty reads, and then a free slot means an empty queue. */
  lemma RunInOrder<T>(wait: int, es: seq<Event<T>>)
    requires AllPerformed(Submissions(es))
    ensures var d := Run(Idle(wait), es); Settled(d) && d.taken + d.queue == Submissions(es)
  {
    NoEmptyReads<T>(Idle(wait), es);
    OrderKept<T>(Idle(wait), [], es);
    assert [] + Submissions(es) == Submissions(es);
  }

  // ---------------------------------------------------------------- drain

  // Neither empty reads nor transfers of more than 255 bytes.
  predicate AllPlain<T>(ts: seq<Transfer<T>>) {
    forall i :: 0 <= i < |ts| ==> !ts[i].Dropped() && ts[i].Short()
  }

  // The hardware has something to signal.
  predicate Raises<T>(d: Driver<T>, e: Event<T>) {
    match e
    case Submit(_) => false
    case TxEvent => d.unsignalled > 0
    case EotEvent => CanEnd(d)
  }

  // Every event is an interrupt that the hardware can raise at its time.
  ghost predicate AllRaised<T>(d: Driver<T>, es: seq<Event<T>>)
    decreases es
  {
    es == [] || (Raises(d, es[0]) && AllRaised(Next(d, es[0]), es[1..]))
  }

  // Interrupts the waiting transfers will raise: one for each buffer, one for the trailer, and
  // the end.
  function Waiting<T>(ts: seq<Transfer<T>>): nat {
    if ts == [] then 0 else ts[0].Buffers() + 2 + Waiting(ts[1..])
  }

  // Interrupts still to come.
  function Outstanding<T>(d: Driver<T>): nat {
    d.unsignalled + (if d.slot == None then 0 else if d.trailed then 1 else 2) + Waiting(d.queue)
  }

  // Settled, with transfers only that will end.
  predicate Orderly<T>(d: Driver<T>) {
    Settled(d) && FlagsKept(d) && AllPlain(d.queue) && AllPlain(InFlight(d))
  }

  // What is done and what is to be done, in order.
  function Course<T>(d: Driver<T>): seq<Transfer<T>> {
    d.completed + InFlight(d) + d.queue
  }

  lemma TxOrderly<T>(d: Driver<T>)
    requires Orderly(d) && d.unsignalled > 0
    ensures var e := Signalled(d); Orderly(e) && Outstanding(e) == Outstanding(d) - 1 && Course(e) == Course(d)
  {
    hide Signalled, AllPlain, Waiting;
    TxFlags(d);
    if d.slot.Some? {
      SlotPlain(d);
      TrailingOnce(d);
    } else {
      assert !Trailing(d);
    }
  }

  lemma SlotPlain<T>(d: Driver<T>)
    requires AllPlain(InFlight(d)) && d.slot.Some?
    ensures d.slot.value.Short() && !d.slot.value.Dropped()
  {
    assert InFlight(d)[0] == d.slot.value;
  }

  // A short transfer is trailed by the first interrupt.
  lemma TrailingOnce<T>(d: Driver<T>)
    requires FlagsKept(d) && d.slot.Some? && d.slot.value.Short()
    ensures Trailing(d) <==> !d.trailed
  {
  }

  lemma PlainTail<T>(ts: seq<Transfer<T>>)
    requires AllPlain(ts) && ts != []
    ensures AllPlain(ts[1..]) && AllPlain([ts[0]]) && !ts[0].Dropped() && ts[0].Short()
  {
  }

  lemma ExecOrderly<T>(d: Driver<T>, t: Transfer<T>)
    requires d.slot == None && FlagsKept(d) && AllPlain(d.queue) && !t.Dropped() && t.Short() && AllPlain([t])
    ensures var e := Exec(d, t);
      && Orderly(e) && InFlight(e) == [t] && e.queue == d.queue && e.completed == d.completed
      && Outstanding(e) == d.unsignalled + t.Buffers() + 2 + Waiting(d.queue)
  {
    hide AllPlain, Waiting, ReadCommands, WriteCommands;
  }

  lemma EotOrderly<T>(d: Driver<T>)
    requires Orderly(d) && CanEnd(d)
    ensures var e := Ended(d); Orderly(e) && Outstanding(e) == Outstanding(d) - 1 && Course(e) == Course(d)
  {
    hide AllPlain, Exec;
    var c := Cleared(d);
    ClearedFlags(d);
    if d.queue != [] {
      var t := d.queue[0];
      PlainTail(d.queue);
      ExecOrderly(c.(queue := d.queue[1..]), t);
      assert d.queue == [t] + d.queue[1..];
      Associate(d.completed + InFlight(d), [t], d.queue[1..]);
    } else {
      assert d.completed + InFlight(d) + [] + [] == d.completed + InFlight(d) + [];
    }
  }

  lemma ClearedFlags<T>(d: Driver<T>)
    requires Orderly(d) && CanEnd(d)
    ensures forall q :: FlagsKept(Cleared(d).(queue := q))
    ensures AllPlain(InFlight(Cleared(d)))
  {
    SlotPlain(d);
  }

  lemma RaisedOrderly<T>(d: Driver<T>, e: Event<T>)
    requires Orderly(d) && Raises(d, e)
    ensures var f := Next(d, e); Orderly(f) && Outstanding(f) == Outstanding(d) - 1 && Course(f) == Course(d)
  {
    hide Orderly, Signalled, Ended, Course, Outstanding;
    if e.TxEvent? {
      TxOrderly(d);
    } else {
      EotOrderly(d);
    }
  }

  // As long as interrupts are to come, the hardware can raise one.
  lemma SomeRaised<T>(d: Driver<T>)
    requires Orderly(d) && Outstanding(d) > 0
    ensures Raises(d, TxEvent) || Raises(d, EotEvent)
  {
    if d.slot.Some? {
      SlotPlain(d);
    }
  }

  lemma NothingToCome<T>(d: Driver<T>)
    requires Orderly(d) && Outstanding(d) == 0
    ensures d.slot == None && d.queue == [] && d.completed == Course(d)
  {
    assert d.completed + [] + [] == d.completed;
  }

  /** Whatever the order in which the hardware raises its interrupts, after exactly so many as
      there are buffers, trailers and ends to signal, the transfer in flight and all that wait
      are completed, in order, when each has at most 255 bytes and none is an empty read;
      before that the hardware can always raise one. */
  lemma {:induction false} Drain<T>(d: Driver<T>, es: seq<Event<T>>)
    requires Orderly(d) && AllRaised(d, es)
    ensures var f := Run(d, es);
      && |es| <= Outstanding(d)
      && (|es| < Outstanding(d) ==> Raises(f, TxEvent) || Raises(f, EotEvent))
      && (|es| == Outstanding(d) ==>
           f.slot == None && f.queue == [] && f.completed == d.completed + InFlight(d) + d.queue)
    decreases es
  {
    hide Orderly, Outstanding, Course, Next, Raises;
    DrainTo(d, es);
    var f := Run(d, es);
    if Outstanding(f) > 0 {
      SomeRaised(f);
    } else {
      NothingToCome(f);
    }
    CourseIs(d);
  }

  lemma CourseIs<T>(d: Driver<T>)
    ensures Course(d) == d.completed + InFlight(d) + d.queue
  {
  }

  lemma {:induction false} DrainTo<T>(d: Driver<T>, es: seq<Event<T>>)
    requires Orderly(d) && AllRaised(d, es)
    ensures var f := Run(d, es); Orderly(f) && |es| + Outstanding(f) == Outstanding(d) && Course(f) == Course(d)
    decreases es
  {
    hide Orderly, Outstanding, Course, Next, Raises;
    if es != [] {
      RaisedOrderly(d, es[0]);
      DrainTo(Next(d, es[0]), es[1..]);
    }
  }
}
