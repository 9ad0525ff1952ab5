/**
 One channel of the UART driver as a value: the queue of submitted transfers, the
 segments given to the uDMA and what became of every transfer. Uart.dfy proves
 that drivers/uart.c does these steps; the lemmas here are about whole runs.
 `T` identifies a task.
 */
module UartQueue {
  import opened Words

  // UDMA_MAX_SIZE - 4, the largest segment.
  const MAX_SEGMENT: int := 131068

  // A submitted transfer: task, buffer address and size in bytes.
  datatype Entry<T> = Entry(task: T, buf: int, size: int)

  datatype Segment = Segment(addr: int, size: int)

  datatype Fate = Completed | Flushed

  // A transfer that left the queue after `segments` of it were started.
  datatype Exit<T> = Exit(entry: Entry<T>, fate: Fate, segments: nat)

  // `ended` counts the finished segments of the transfer at the head.
  datatype Channel<T> = Channel(queue: seq<Entry<T>>, ended: nat, submitted: seq<Entry<T>>,
                                retired: seq<Exit<T>>, issued: seq<Segment>)

  datatype Event<T> = Submit(entry: Entry<T>) | End | Abort

  // The k-th segment started for a buffer; registers wrap at 32 bits.
  function SegmentAt(buf: int, size: int, k: nat): Segment {
    var left := Wrap(size - 131068 * k);
    Segment(Wrap(buf + 131068 * k), if left > 131068 then 131068 else left)
  }

  predicate Small<T>(e: Entry<T>) {
    e.size <= MAX_SEGMENT
  }

  function Start<T>(c: Channel<T>): Channel<T> {
    if c.queue == [] then c
    else c.(ended := 0, issued := c.issued + [SegmentAt(c.queue[0].buf, c.queue[0].size, 0)])
  }

  function Submitted<T>(c: Channel<T>, e: Entry<T>): Channel<T> {
    var d := c.(queue := c.queue + [e], submitted := c.submitted + [e]);
    if c.queue == [] then Start(d) else d
  }

  // A transfer that once needed a second segment never has its remainder cleared, so
  // the next segment is started whatever is left.
  function Ended<T>(c: Channel<T>): Channel<T>
    requires c.queue != []
  {
    var e := c.queue[0];
    if Small(e)
    then Start(c.(queue := c.queue[1..], retired := c.retired + [Exit(e, Completed, c.ended + 1)]))
    else c.(ended := c.ended + 1, issued := c.issued + [SegmentAt(e.buf, e.size, c.ended + 1)])
  }

  // The exits of a flushed queue, of which only the head was started.
  function Flush<T>(q: seq<Entry<T>>, started: nat): seq<Exit<T>> {
    if q == [] then [] else [Exit(q[0], Flushed, started)] + Flush(q[1..], 0)
  }

  function Aborted<T>(c: Channel<T>): Channel<T> {
    c.(queue := [], retired := c.retired + Flush(c.queue, c.ended + 1))
  }

  // The uDMA signals the end of a segment only while one is in flight.
  predicate Enabled<T>(c: Channel<T>, e: Event<T>) {
    e.End? ==> c.queue != []
  }

  function Next<T>(c: Channel<T>, e: Event<T>): Channel<T>
    requires Enabled(c, e)
  {
    match e
    case Submit(x) => Submitted(c, x)
    case End => Ended(c)
    case Abort => Aborted(c)
  }

  predicate IsRun<T>(c: Channel<T>, es: seq<Event<T>>)
    decreases es
  {
    es == [] || (Enabled(c, es[0]) && IsRun(Next(c, es[0]), es[1..]))
  }

  function Run<T>(c: Channel<T>, es: seq<Event<T>>): Channel<T>
    requires IsRun(c, es)
    decreases es
  {
    if es == [] then c else Run(Next(c, es[0]), es[1..])
  }

  function Empty<T>(): Channel<T> {
    Channel([], 0, [], [], [])
  }

  // ---------------------------------------------------------------- accounting

  function Entries<T>(xs: seq<Exit<T>>): seq<Entry<T>> {
    seq(|xs|, i requires 0 <= i < |xs| => xs[i].entry)
  }

  // The first n segments of a transfer.
  function Segments<T>(e: Entry<T>, n: nat): seq<Segment> {
    seq(n, i requires 0 <= i < n => SegmentAt(e.buf, e.size, i))
  }

  function IssuedFor<T>(xs: seq<Exit<T>>): seq<Segment> {
    if xs == [] then []
    else IssuedFor(xs[..|xs| - 1]) + Segments(xs[|xs| - 1].entry, xs[|xs| - 1].segments)
  }

  function InFlight<T>(c: Channel<T>): seq<Segment> {
    if c.queue == [] then [] else Segments(c.queue[0], c.ended + 1)
  }

  predicate OneSegmentEach<T>(xs: seq<Exit<T>>) {
    forall i :: 0 <= i < |xs| && xs[i].fate == Completed ==> Small(xs[i].entry) && xs[i].segments == 1
  }

  predicate Inv<T(==)>(c: Channel<T>) {
    // no transfer is lost, duplicated or overtaken
    && Entries(c.retired) + c.queue == c.submitted
    // the segments started are those of the transfers in queue order
    && c.issued == IssuedFor(c.retired) + InFlight(c)
    // a completed transfer took exactly one segment
    && OneSegmentEach(c.retired)
    && (c.queue != [] && Small(c.queue[0]) ==> c.ended == 0)
  }

  lemma IssuedForMore<T>(xs: seq<Exit<T>>, x: Exit<T>)
    ensures IssuedFor(xs + [x]) == IssuedFor(xs) + Segments(x.entry, x.segments)
    ensures Entries(xs + [x]) == Entries(xs) + [x.entry]
  {
    assert (xs + [x])[..|xs|] == xs;
  }

  lemma {:induction false} FlushNothing<T>(xs: seq<Exit<T>>, q: seq<Entry<T>>)
    ensures IssuedFor(xs + Flush(q, 0)) == IssuedFor(xs)
    ensures Entries(xs + Flush(q, 0)) == Entries(xs) + q
    decreases q
  {
    if q == [] {
      assert xs + [] == xs;
    } else {
      var x := Exit(q[0], Flushed, 0);
      assert xs + Flush(q, 0) == (xs + [x]) + Flush(q[1..], 0);
      IssuedForMore(xs, x);
      FlushNothing(xs + [x], q[1..]);
    }
  }

  lemma {:induction false} FlushFates<T>(xs: seq<Exit<T>>, q: seq<Entry<T>>, n: nat)
    requires OneSegmentEach(xs)
    ensures OneSegmentEach(xs + Flush(q, n))
    decreases q
  {
    if q == [] {
      assert xs + [] == xs;
    } else {
      FlushFirst(xs, q, n);
      FlushFates(xs + [Exit(q[0], Flushed, n)], q[1..], 0);
    }
  }

  lemma SubmitInv<T>(c: Channel<T>, e: Entry<T>)
    requires Inv(c)
    ensures Inv(Submitted(c, e))
  {
    if c.queue == [] {
      assert Segments(e, 1) == [SegmentAt(e.buf, e.size, 0)];
      assert c.issued + [] == c.issued;
    }
  }

  lemma EndInv<T>(c: Channel<T>)
    requires Inv(c) && c.queue != []
    ensures Inv(Ended(c))
  {
    hide IssuedFor;
    var e := c.queue[0];
    if Small(e) {
      var d := Ended(c);
      IssuedForMore(c.retired, Exit(e, Completed, 1));
      assert Entries(c.retired) + c.queue == Entries(c.retired) + [e] + c.queue[1..];
      if c.queue[1..] != [] {
        var f := c.queue[1];
        assert Segments(f, 1) == [SegmentAt(f.buf, f.size, 0)];
      }
    } else {
      assert Segments(e, c.ended + 2) == Segments(e, c.ended + 1) + [SegmentAt(e.buf, e.size, c.ended + 1)];
    }
  }

  lemma FlushFirst<T>(xs: seq<Exit<T>>, q: seq<Entry<T>>, n: nat)
    requires q != []
    ensures xs + Flush(q, n) == (xs + [Exit(q[0], Flushed, n)]) + Flush(q[1..], 0)
  {
  }

  lemma FlushAccounts<T>(xs: seq<Exit<T>>, q: seq<Entry<T>>, n: nat)
    requires q != []
    ensures Entries(xs + Flush(q, n)) == Entries(xs) + q
    ensures IssuedFor(xs + Flush(q, n)) == IssuedFor(xs) + Segments(q[0], n)
  {
    hide IssuedFor, Entries, Segments, Flush;
    var x := Exit(q[0], Flushed, n);
    FlushFirst(xs, q, n);
    IssuedForMore(xs, x);
    FlushNothing(xs + [x], q[1..]);
    assert q == [q[0]] + q[1..];
  }

  lemma NothingBehind<A>(s: seq<A>)
    ensures s + [] == s
  {
  }

  lemma AbortNothing<T>(c: Channel<T>)
    requires c.queue == []
    ensures Aborted(c) == c
  {
    NothingBehind(c.retired);
  }

  lemma AbortInv<T>(c: Channel<T>)
    requires Inv(c)
    ensures Inv(Aborted(c))
  {
    hide IssuedFor, Entries, Segments, Flush, OneSegmentEach;
    if c.queue != [] {
      FlushAccounts(c.retired, c.queue, c.ended + 1);
      FlushFates(c.retired, c.queue, c.ended + 1);
      NothingBehind(Entries(c.retired + Flush(c.queue, c.ended + 1)));
      NothingBehind(IssuedFor(c.retired + Flush(c.queue, c.ended + 1)));
    } else {
      AbortNothing(c);
    }
  }

  lemma {:induction false} RunInv<T>(c: Channel<T>, es: seq<Event<T>>)
    requires Inv(c) && IsRun(c, es)
    ensures Inv(Run(c, es))
    decreases es
  {
    if es != [] {
      match es[0] {
        case Submit(e) => SubmitInv(c, e);
        case End => EndInv(c);
        case Abort => AbortInv(c);
      }
      RunInv(Next(c, es[0]), es[1..]);
    }
  }

  /** Over every run: submitted transfers are completed, flushed or queued, in order and
      once each; every completed one fitted one segment and got exactly that segment; the
      segments given to the uDMA are those of the transfers in queue order. */
  lemma RunAccounts<T>(es: seq<Event<T>>)
    requires IsRun(Empty(), es)
    ensures Inv(Run(Empty(), es))
  {
    RunInv<T>(Empty(), es);
  }

  // ---------------------------------------------------------------- completion

  predicate Ends<T>(es: seq<Event<T>>) {
    forall i :: 0 <= i < |es| ==> es[i] == End
  }

  predicate NoAbort<T>(es: seq<Event<T>>) {
    forall i :: 0 <= i < |es| ==> !es[i].Abort?
  }

  /** A transfer larger than one segment is never completed: until it is aborted it stays
      at the head and nothing behind it completes. */
  lemma {:induction false} LargeBlocks<T>(c: Channel<T>, es: seq<Event<T>>)
    requires c.queue != [] && !Small(c.queue[0]) && IsRun(c, es) && NoAbort(es)
    ensures var d := Run(c, es); d.queue != [] && d.queue[0] == c.queue[0] && d.retired == c.retired
    decreases es
  {
    if es != [] {
      LargeBlocks(Next(c, es[0]), es[1..]);
    }
  }

  function Completions<T>(q: seq<Entry<T>>): seq<Exit<T>> {
    seq(|q|, i requires 0 <= i < |q| => Exit(q[i], Completed, 1))
  }

  /** Transfers of at most one segment are completed by one event each, in order. */
  lemma {:induction false} SmallDrain<T>(c: Channel<T>, es: seq<Event<T>>)
    requires (c.queue != [] ==> c.ended == 0) && Ends(es) && |es| == |c.queue|
    requires forall i :: 0 <= i < |c.queue| ==> Small(c.queue[i])
    ensures IsRun(c, es)
    ensures Run(c, es).queue == [] && Run(c, es).retired == c.retired + Completions(c.queue)
    decreases es
  {
    if es == [] {
      assert c.retired + [] == c.retired;
    } else {
      var d := Ended(c);
      assert d.queue == c.queue[1..] && d.retired == c.retired + [Exit(c.queue[0], Completed, 1)];
      SmallDrain(d, es[1..]);
      assert Completions(c.queue) == [Exit(c.queue[0], Completed, 1)] + Completions(c.queue[1..]);
    }
  }

  predicate AllSmall<T>(q: seq<Entry<T>>) {
    forall i :: 0 <= i < |q| ==> Small(q[i])
  }

  /** The end events of the hardware empty a queue if and only if every transfer in it
      fits one segment. */
  lemma DrainsExactly<T>(c: Channel<T>)
    requires Inv(c)
    ensures (exists es :: Ends(es) && IsRun(c, es) && Run(c, es).queue == []) <==> AllSmall(c.queue)
  {
    var es := seq(|c.queue|, i => End);
    if AllSmall(c.queue) {
      hide OneSegmentEach, IssuedFor, Entries;
      SmallDrain(c, es);
    } else {
      forall fs | Ends(fs) && IsRun(c, fs) ensures Run(c, fs).queue != [] {
        LargeStays(c, fs);
      }
    }
  }

  lemma {:induction false} LargeStays<T>(c: Channel<T>, es: seq<Event<T>>)
    requires Ends(es) && IsRun(c, es) && !AllSmall(c.queue)
    ensures !AllSmall(Run(c, es).queue)
    decreases es
  {
    if es != [] {
      var i :| 0 <= i < |c.queue| && !Small(c.queue[i]);
      var d := Ended(c);
      if Small(c.queue[0]) {
        assert d.queue[i - 1] == c.queue[i];
      } else {
        assert d.queue[0] == c.queue[0];
      }
      LargeStays(d, es[1..]);
    }
  }

  // ---------------------------------------------------------------- tiling

  // Segments needed for a buffer: size / MAX_SEGMENT, rounded up.
  function Needed(size: int): int {
    (size + 131067) / 131068
  }

  /** The first segments of a transfer tile its buffer: they follow each other without gap
      from its start, all but the last are full, and the last one ends where it ends. */
  lemma SegmentsTile(buf: int, size: int, k: nat)
    requires 0 <= buf && 0 < size < 0x1_0000_0000 && buf + size <= 0x1_0000_0000 && k < Needed(size)
    ensures var s := SegmentAt(buf, size, k);
      && s.addr == buf + MAX_SEGMENT * k && 0 < s.size <= MAX_SEGMENT
      && s.addr + s.size <= buf + size
      && (if k + 1 < Needed(size) then s.size == MAX_SEGMENT else s.addr + s.size == buf + size)
  {
    assert 131068 * k < size;
  }

  function TotalSize(ss: seq<Segment>): int {
    if ss == [] then 0 else TotalSize(ss[..|ss| - 1]) + ss[|ss| - 1].size
  }

  /** Together they move exactly `size` bytes. */
  lemma {:induction false} SegmentsSum<T>(e: Entry<T>, n: nat)
    requires 0 <= e.buf && 0 < e.size < 0x1_0000_0000 && e.buf + e.size <= 0x1_0000_0000 && n <= Needed(e.size)
    ensures TotalSize(Segments(e, n)) == if n == Needed(e.size) then e.size else MAX_SEGMENT * n
  {
    if n > 0 {
      assert Segments(e, n)[..n - 1] == Segments(e, n - 1);
      SegmentsTile(e.buf, e.size, n - 1);
      SegmentsSum(e, n - 1);
    }
  }

  /** Behind the last one, a large transfer is given another segment outside its buffer,
      a full one unless its size is a multiple of the segment size. */
  lemma Overrun<T>(e: Entry<T>)
    requires 0 <= e.buf && 0 < e.size && e.buf + MAX_SEGMENT * Needed(e.size) < 0x1_0000_0000
    ensures var s := SegmentAt(e.buf, e.size, Needed(e.size));
      e.buf + e.size <= s.addr && s.size == if e.size == MAX_SEGMENT * Needed(e.size) then 0 else MAX_SEGMENT
  {
  }
}
