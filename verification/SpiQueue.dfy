/**
 The SPI driver's bookkeeping as a value: one transfer in flight and a queue of
 pending ones. Spi.dfy proves that drivers/spi.c does these steps. `T` identifies a
 task, `C` a chip select.
 */
module SpiQueue {
  import opened Pmsis

  datatype Transfer<T, C> = Transfer(task: T, cs: C, buf: int, len: bv32, flags: bv32, isSend: bool)

  // `current` is the `end_of_transfer` slot; the last two fields record what happened.
  datatype Driver<T, C> = Driver(current: Option<Transfer<T, C>>, queue: seq<Transfer<T, C>>,
                                 started: seq<Transfer<T, C>>, completed: seq<Transfer<T, C>>)

  datatype Event<T, C> = Submit(t: Transfer<T, C>) | EndOfTransfer

  function Idle<T, C>(): Driver<T, C> {
    Driver(None, [], [], [])
  }

  function Start<T, C>(d: Driver<T, C>, t: Transfer<T, C>): Driver<T, C> {
    d.(current := Some(t), started := d.started + [t])
  }

  // `__pi_spi_send_async` and `__pi_spi_receive_async`
  function Accept<T, C>(d: Driver<T, C>, t: Transfer<T, C>): Driver<T, C> {
    if d.current == None then Start(d, t) else d.(queue := d.queue + [t])
  }

  // The slot after the transfer in it has ended.
  function Cleared<T, C>(d: Driver<T, C>): Driver<T, C> {
    d.(current := None, completed := d.completed + if d.current.Some? then [d.current.value] else [])
  }

  // `spim_eot_handler`
  function Ended<T, C>(d: Driver<T, C>): Driver<T, C> {
    var e := Cleared(d);
    if e.queue == [] then e else Start(e.(queue := e.queue[1..]), e.queue[0])
  }

  function Next<T, C>(d: Driver<T, C>, e: Event<T, C>): Driver<T, C> {
    match e
    case Submit(t) => Accept(d, t)
    case EndOfTransfer => Ended(d)
  }

  function Run<T, C>(d: Driver<T, C>, es: seq<Event<T, C>>): Driver<T, C>
    decreases es
  {
    if es == [] then d else Run(Next(d, es[0]), es[1..])
  }

  function Submissions<T, C>(es: seq<Event<T, C>>): seq<Transfer<T, C>> {
    if es == [] then []
    else (if es[0].Submit? then [es[0].t] else []) + Submissions(es[1..])
  }

  function InFlight<T, C>(d: Driver<T, C>): seq<Transfer<T, C>> {
    if d.current.Some? then [d.current.value] else []
  }

  // Between two handlers a free slot means an empty queue.
  predicate Settled<T, C>(d: Driver<T, C>) {
    d.current == None ==> d.queue == []
  }

  predicate Accounts<T(==), C(==)>(d: Driver<T, C>, submitted: seq<Transfer<T, C>>) {
    && Settled(d)
    && d.completed + InFlight(d) == d.started
    && d.started + d.queue == submitted
  }

  lemma NextAccounts<T, C>(d: Driver<T, C>, submitted: seq<Transfer<T, C>>, e: Event<T, C>)
    requires Accounts(d, submitted)
    ensures Accounts(Next(d, e), submitted + (if e.Submit? then [e.t] else []))
  {
    match e
    case Submit(t) =>
    case EndOfTransfer =>
      assert submitted + [] == submitted;
      if d.queue != [] {
        assert d.queue == [d.queue[0]] + d.queue[1..];
      } else {
        assert d.completed + [] == d.completed;
      }
  }

  lemma {:induction false} RunAccounts<T, C>(d: Driver<T, C>, submitted: seq<Transfer<T, C>>, es: seq<Event<T, C>>)
    requires Accounts(d, submitted)
    ensures Accounts(Run(d, es), submitted + Submissions(es))
    decreases es
  {
    if es == [] {
      assert submitted + [] == submitted;
    } else {
      var more := if es[0].Submit? then [es[0].t] else [];
      NextAccounts(d, submitted, es[0]);
      RunAccounts(Next(d, es[0]), submitted + more, es[1..]);
      assert submitted + more + Submissions(es[1..]) == submitted + Submissions(es);
    }
  }

  /** Over every run: at most one transfer is in flight, transfers are started in the order
      of their submission and none is lost, the completed ones are all the started ones
      but the one in flight, and a free slot means an empty queue. */
  lemma RunInOrder<T, C>(es: seq<Event<T, C>>)
    ensures Accounts(Run(Idle(), es), Submissions(es))
  {
    RunAccounts<T, C>(Idle(), [], es);
    assert [] + Submissions(es) == Submissions(es);
  }

  predicate OnlyEnds<T, C>(es: seq<Event<T, C>>) {
    forall i :: 0 <= i < |es| ==> es[i] == EndOfTransfer
  }

  /** One end event each completes the transfer in flight and all that wait, in order. */
  lemma {:induction false} Drain<T, C>(d: Driver<T, C>, es: seq<Event<T, C>>)
    requires Settled(d) && OnlyEnds(es) && |es| == |InFlight(d)| + |d.queue|
    ensures Run(d, es).current == None && Run(d, es).queue == []
    ensures Run(d, es).completed == d.completed + InFlight(d) + d.queue
    decreases es
  {
    if es == [] {
      assert d.completed + [] + [] == d.completed;
    } else {
      var e := Ended(d);
      Drain(e, es[1..]);
      assert d.queue != [] ==> d.queue == [d.queue[0]] + d.queue[1..];
      assert InFlight(e) + e.queue == d.queue;
      assert e.completed + InFlight(e) + e.queue == e.completed + (InFlight(e) + e.queue);
    }
  }
}
