/**
 The UART driver's two transfer queues (drivers/uart.c). Tasks are linked through
 `next`; the task at the head of a channel's queue is the one the uDMA works on.
 */
module Uart {
  import opened Pmsis
  import opened UartQueue
  import opened Words

  // task->data[0..3]: what is left to transfer, the channel, and the remainder that the
  // last started segment left ("repeat size").
  datatype Data = Data(buf: int, size: int, channel: int, repeat: int)

  type UartTask = Task<Data>

  // The L2 memory, the only memory the uDMA reaches: (buf & 0xFFF00000) == 0x1C000000.
  predicate InL2(buf: int) {
    0x1C00_0000 <= buf < 0x1C10_0000
  }

  /** The range is what the mask of the source lets through. */
  lemma L2Mask(buf: bv32)
    ensures InL2(buf as int) <==> buf & 0xFFF0_0000 == 0x1C00_0000
  {
    L2Range(buf);
    AboveL2Start(buf);
    AboveL2End(buf);
  }

  lemma L2Range(buf: bv32)
    ensures buf & 0xFFF0_0000 == 0x1C00_0000 <==> 0x1C00_0000 <= buf && !(0x1C10_0000 <= buf)
  {
  }

  lemma AboveL2Start(buf: bv32)
    ensures 0x1C00_0000 <= buf <==> 0x1C00_0000 <= buf as int
  {
  }

  lemma AboveL2End(buf: bv32)
    ensures 0x1C10_0000 <= buf <==> 0x1C10_0000 <= buf as int
  {
  }

  // The words of a transfer that has not been started.
  ghost predicate Waiting(e: Entry<UartTask>, channel: int)
    reads e.task`data
  {
    IsWord(e.buf) && IsWord(e.size) && e.task.data == Data(e.buf, e.size, channel, 0)
  }

  // The words of the transfer at the head, after `k` finished segments. A remainder,
  // once left, is never cleared.
  ghost predicate Running(e: Entry<UartTask>, k: nat, channel: int)
    reads e.task`data
  {
    var d := e.task.data;
    && IsWord(e.buf) && IsWord(e.size) && d.channel == channel
    && d.buf == Wrap(e.buf + 131068 * k) && d.size == Wrap(e.size - 131068 * k)
    && (d.repeat != 0 <==> !Small(e))
  }

  function Tasks(q: seq<Entry<UartTask>>): (ts: seq<UartTask>)
    ensures |ts| == |q|
    ensures forall i :: 0 <= i < |q| ==> ts[i] == q[i].task
  {
    seq(|q|, i requires 0 <= i < |q| => q[i].task)
  }

  ghost predicate AllWaiting(q: seq<Entry<UartTask>>, channel: int)
    reads Tasks(q)`data
  {
    forall i :: 0 <= i < |q| ==> Waiting(q[i], channel)
  }

  // The software queue and the uDMA agree with the abstract channel.
  ghost predicate ChannelOk(head: Task?<Data>, tail: Task?<Data>, udma: Option<Segment>, ch: Channel<UartTask>, c: int)
    reads Tasks(ch.queue)
  {
    var q := ch.queue;
    && head == First(Tasks(q)) && tail == Last(Tasks(q))
    && Linked(Tasks(q)) && AllPending(Tasks(q))
    && udma == (if q == [] then None else Some(SegmentAt(q[0].buf, q[0].size, ch.ended)))
    && (q != [] ==> Running(q[0], ch.ended, c) && AllWaiting(q[1..], c))
  }

  lemma TasksMore(q: seq<Entry<UartTask>>, e: Entry<UartTask>)
    ensures Tasks(q + [e]) == Tasks(q) + [e.task]
  {
  }

  lemma NotBehind(q: seq<Entry<UartTask>>, t: UartTask)
    requires t !in Tasks(q)
    ensures q != [] ==> t !in Tasks(q[1..]) && t != q[0].task
  {
    if q != [] {
      assert forall i :: 0 <= i < |q[1..]| ==> Tasks(q[1..])[i] == Tasks(q)[i + 1];
      assert Tasks(q)[0] == q[0].task;
    }
  }

  // The words `__pi_uart_copy` and `__pi_uart_copy_exec` leave.
  lemma Started(e: Entry<UartTask>, c: int)
    requires IsWord(e.buf) && IsWord(e.size)
    requires e.task.data == Data(e.buf, e.size, c, if e.size > MAX_SEGMENT then e.size - MAX_SEGMENT else 0)
    ensures Running(e, 0, c)
    ensures SegmentAt(e.buf, e.size, 0) == Segment(e.buf, if e.size > MAX_SEGMENT then MAX_SEGMENT else e.size)
  {
  }

  lemma NotStarted(e: Entry<UartTask>, c: int)
    requires IsWord(e.buf) && IsWord(e.size) && e.task.data == Data(e.buf, e.size, c, 0)
    ensures Waiting(e, c)
  {
  }

  // What `ChannelOk` says.
  lemma ChannelParts(head: Task?<Data>, tail: Task?<Data>, udma: Option<Segment>, ch: Channel<UartTask>, c: int)
    requires ChannelOk(head, tail, udma, ch, c)
    ensures head == First(Tasks(ch.queue)) && tail == Last(Tasks(ch.queue))
    ensures Linked(Tasks(ch.queue)) && AllPending(Tasks(ch.queue))
    ensures udma == if ch.queue == [] then None else Some(SegmentAt(ch.queue[0].buf, ch.queue[0].size, ch.ended))
    ensures ch.queue != [] ==> Running(ch.queue[0], ch.ended, c) && AllWaiting(ch.queue[1..], c)
  {
  }

  lemma SubmittedQueue(ch: Channel<UartTask>, e: Entry<UartTask>)
    ensures Tasks(Submitted(ch, e).queue) == Tasks(ch.queue) + [e.task]
  {
    TasksMore(ch.queue, e);
  }

  // A transfer queued behind others.
  lemma QueueBehind(ch: Channel<UartTask>, e: Entry<UartTask>, udma: Option<Segment>, c: int)
    requires ch.queue != [] && Linked(Tasks(ch.queue) + [e.task]) && AllPending(Tasks(ch.queue)) && !e.task.done
    requires Running(ch.queue[0], ch.ended, c) && AllWaiting(ch.queue[1..], c) && Waiting(e, c)
    requires udma == Some(SegmentAt(ch.queue[0].buf, ch.queue[0].size, ch.ended))
    ensures ChannelOk(First(Tasks(ch.queue)), e.task, udma, Submitted(ch, e), c)
  {
    hide Linked, Running, Waiting;
    var q := ch.queue + [e];
    TasksMore(ch.queue, e);
    assert q[1..] == ch.queue[1..] + [e];
    assert forall i :: 0 <= i < |q[1..]| ==> q[1..][i] == if i < |ch.queue| - 1 then ch.queue[1..][i] else e;
  }

  // A transfer started at once.
  lemma QueueFirst(ch: Channel<UartTask>, e: Entry<UartTask>, udma: Option<Segment>, c: int)
    requires ch.queue == [] && Linked([e.task]) && !e.task.done && Running(e, 0, c)
    requires udma == Some(SegmentAt(e.buf, e.size, 0))
    ensures ChannelOk(e.task, e.task, udma, Submitted(ch, e), c)
  {
    hide Linked, Running, Waiting;
    TasksMore(ch.queue, e);
    assert [] + [e] == [e] && Tasks([]) + [e.task] == [e.task];
  }

  lemma PendingHead(ts: seq<UartTask>)
    requires AllPending(ts)
    ensures ts != [] ==> !ts[0].done && AllPending(ts[1..])
  {
  }

  lemma RunningRepeat(e: Entry<UartTask>, k: nat, c: int)
    requires Running(e, k, c)
    ensures e.task.data.repeat != 0 <==> !Small(e)
    ensures IsWord(e.buf) && IsWord(e.size) && e.task.data.channel == c
    ensures e.task.data.buf == Wrap(e.buf + 131068 * k) && e.task.data.size == Wrap(e.size - 131068 * k)
  {
  }

  lemma WordSum(x: int, y: int)
    ensures Wrap(Wrap(x) + y) == Wrap(x + y)
  {
  }

  // The words after the next segment of a large transfer has been started.
  lemma Continued(e: Entry<UartTask>, k: nat, c: int, d: Data)
    requires !Small(e) && IsWord(e.buf) && IsWord(e.size) && d.channel == c && d.repeat != 0
    requires d.buf == Wrap(e.buf + 131068 * k) && d.size == Wrap(e.size - 131068 * k)
    requires var left := Wrap(d.size - MAX_SEGMENT);
      e.task.data == Data(Wrap(d.buf + MAX_SEGMENT), left, c, if left > MAX_SEGMENT then left - MAX_SEGMENT else d.repeat)
    ensures Running(e, k + 1, c)
    ensures SegmentAt(e.buf, e.size, k + 1) ==
            Segment(e.task.data.buf, if e.task.data.size > MAX_SEGMENT then MAX_SEGMENT else e.task.data.size)
  {
    WordSum(e.buf + 131068 * k, 131068);
    WordSum(e.size - 131068 * k, -131068);
  }

  // The head goes on with its next segment.
  lemma QueueContinues(ch: Channel<UartTask>, udma: Option<Segment>, c: int)
    requires ch.queue != [] && !Small(ch.queue[0]) && Linked(Tasks(ch.queue)) && AllPending(Tasks(ch.queue))
    requires Running(ch.queue[0], ch.ended + 1, c) && AllWaiting(ch.queue[1..], c)
    requires udma == Some(SegmentAt(ch.queue[0].buf, ch.queue[0].size, ch.ended + 1))
    ensures ChannelOk(First(Tasks(ch.queue)), Last(Tasks(ch.queue)), udma, Ended(ch), c)
  {
    hide Linked, Running, AllPending, AllWaiting;
  }

  lemma QueueTail(q: seq<Entry<UartTask>>)
    requires q != []
    ensures Tasks(q)[1..] == Tasks(q[1..])
  {
  }

  lemma WaitingHead(q: seq<Entry<UartTask>>, c: int)
    requires q != [] && AllWaiting(q, c)
    ensures Waiting(q[0], c) && AllWaiting(q[1..], c)
    ensures q[0].task.data == Data(q[0].buf, q[0].size, c, 0) && IsWord(q[0].buf) && IsWord(q[0].size)
  {
  }

  // The head leaves the queue and the next transfer is started.
  lemma QueueShifts(ch: Channel<UartTask>, udma: Option<Segment>, c: int)
    requires ch.queue != [] && Small(ch.queue[0]) && Linked(Tasks(ch.queue[1..])) && AllPending(Tasks(ch.queue[1..]))
    requires ch.queue[1..] != [] ==> Running(ch.queue[1], 0, c) && AllWaiting(ch.queue[1..][1..], c)
    requires udma == if ch.queue[1..] == [] then None else Some(SegmentAt(ch.queue[1].buf, ch.queue[1].size, 0))
    ensures ChannelOk(First(Tasks(ch.queue[1..])), Last(Tasks(ch.queue[1..])), udma, Ended(ch), c)
  {
    hide Linked, Running, AllPending, AllWaiting;
  }

  // One direction of an interface: fifo_head[c], fifo_tail[c] and the uDMA channel c.
  class Direction {
    const c: int
    var fifoHead: Task?<Data>
    var fifoTail: Task?<Data>
    // The segment the uDMA is working on.
    var udma: Option<Segment>
    ghost var ch: Channel<UartTask>

    ghost function Queue(): seq<UartTask>
      reads this
    {
      Tasks(ch.queue)
    }

    /** In every state between two calls: the uDMA works exactly when the queue is not
        empty, and then on the current segment of the head; no task in the queue was
        released before. */
    ghost predicate Valid()
      reads this, Queue()
    {
      ChannelOk(fifoHead, fifoTail, udma, ch, c)
    }

    constructor (c: int)
      ensures this.c == c && Valid() && ch == Empty()
    {
      this.c := c;
      fifoHead, fifoTail, udma := null, null, None;
      ch := Empty();
    }

    /** `__pi_uart_copy_exec` */
    method CopyExec(task: UartTask)
      modifies this`udma, task`data
      ensures var d := old(task.data);
        && task.data == (if d.size > MAX_SEGMENT then d.(repeat := d.size - MAX_SEGMENT) else d)
        && udma == Some(Segment(d.buf, if d.size > MAX_SEGMENT then MAX_SEGMENT else d.size))
    {
      var size := task.data.size;
      if task.data.size > MAX_SEGMENT {
        task.data := task.data.(repeat := task.data.size - MAX_SEGMENT);
        size := MAX_SEGMENT;
      }
      udma := Some(Segment(task.data.buf, size));
    }

    /** `__pi_uart_task_fifo_enqueue`: 0 when the queue was empty. */
    method Enqueue(task: UartTask, ghost ts: seq<UartTask>) returns (head: int)
      requires fifoHead == First(ts) && fifoTail == Last(ts)
      requires Linked(ts) && task !in ts && task.next == null
      modifies this`fifoHead, this`fifoTail, ts`next
      ensures Linked(ts + [task])
      ensures fifoHead == First(ts + [task]) && fifoTail == task
      ensures head == if ts == [] then 0 else 1
    {
      if fifoHead == null {
        fifoHead := task;
        fifoTail := fifoHead;
        head := 0;
      } else {
        fifoTail.next := task;
        fifoTail := fifoTail.next;
        head := 1;
      }
      forall i | 0 <= i < |ts| ensures LinkAt(ts, i, task) {
        assert old(LinkAt(ts, i, null));
      }
      LinkedPush(ts, task);
    }

    /** `__pi_uart_task_fifo_pop` */
    method Pop(ghost ts: seq<UartTask>) returns (task: Task?<Data>)
      requires fifoHead == First(ts) && fifoTail == Last(ts) && Linked(ts)
      modifies this`fifoHead, this`fifoTail
      ensures task == First(ts) && Linked(if ts == [] then ts else ts[1..])
      ensures fifoHead == First(if ts == [] then ts else ts[1..])
      ensures fifoTail == Last(if ts == [] then ts else ts[1..])
    {
      task := null;
      if fifoHead != null {
        LinkedPop(ts);
        task := fifoHead;
        fifoHead := fifoHead.next;
        if fifoHead == null {
          fifoTail := null;
        }
      }
    }

    /** `__pi_uart_copy`: the transfer is queued, and started when the queue was empty. A
        buffer outside L2 is refused and leaves everything unchanged. */
    method Copy(task: UartTask, buf: int, size: int) returns (status: int)
      requires Valid() && IsWord(buf) && IsWord(size)
      requires task !in Queue() && !task.done
      modifies this, task`data, task`next, Queue()`next
      ensures Valid()
      ensures status == if InL2(buf) then 0 else -11
      ensures ch == if InL2(buf) then Submitted(old(ch), Entry(task, buf, size)) else old(ch)
      ensures !InL2(buf) ==> task.data == old(task.data) && task.next == old(task.next) && udma == old(udma)
    {
      hide Linked, AllPending, AllWaiting, Running, Waiting, ChannelOk, Submitted, SegmentAt;
      if !InL2(buf) {
        return -11;
      }
      ghost var ts, was, e := Queue(), ch, Entry(task, buf, size);
      ChannelParts(fifoHead, fifoTail, udma, ch, c);
      NotBehind(ch.queue, task);
      task.data := Data(buf, size, c, 0);
      task.next := null;
      var head := Enqueue(task, ts);
      ch := Submitted(ch, e);
      if head == 0 {
        CopyExec(task);
        assert ts + [task] == [task];
        Started(e, c);
        QueueFirst(was, e, udma, c);
      } else {
        NotStarted(e, c);
        QueueBehind(was, e, udma, c);
      }
      status := 0;
    }

    /** `__pi_uart_handler`: the end of a segment. It reads the head of the queue without a
        check, which is safe because the uDMA only signals while it works. */
    method Handler()
      requires Valid() && udma.Some?
      modifies this, Queue()`data, Queue()`done
      ensures Valid() && old(ch).queue != [] && ch == Ended(old(ch))
      ensures var t := old(ch).queue[0].task;
        t.id == old(t.id) && t.done == (Small(old(ch).queue[0]) && old(t.id) == NoneId)
    {
      hide Linked, AllPending, AllWaiting, Running, Waiting, ChannelOk, Ended, SegmentAt;
      ChannelParts(fifoHead, fifoTail, udma, ch, c);
      RunningRepeat(ch.queue[0], ch.ended, c);
      var task := fifoHead;
      // the hardware has finished the segment
      if task.data.repeat != 0 {
        NextSegment(task);
      } else {
        NextTransfer();
      }
    }

    // The first branch of the handler: the task goes on with its next segment.
    method NextSegment(task: UartTask)
      requires Valid() && ch.queue != [] && task == ch.queue[0].task && !Small(ch.queue[0])
      modifies this`udma, this`ch, task`data
      ensures Valid() && ch == Ended(old(ch)) && !task.done
    {
      hide Linked, AllPending, AllWaiting, Running, Waiting, ChannelOk, Ended, SegmentAt, Wrap, First, Last;
      ghost var was, e, d := ch, ch.queue[0], task.data;
      ChannelParts(fifoHead, fifoTail, udma, ch, c);
      PendingHead(Queue());
      RunningRepeat(e, ch.ended, c);
      LinkedPop(Queue());
      QueueTail(ch.queue);
      ch := Ended(ch);
      task.data := task.data.(buf := Wrap(task.data.buf + MAX_SEGMENT), size := Wrap(task.data.size - MAX_SEGMENT));
      CopyExec(task);
      Continued(e, was.ended, c, d);
      QueueContinues(was, udma, c);
    }

    // The second branch: the task is popped and released, and the next one is started.
    method NextTransfer()
      requires Valid() && ch.queue != [] && Small(ch.queue[0])
      modifies this, Queue()`data, Queue()`done
      ensures Valid() && ch == Ended(old(ch))
      ensures var t := old(ch).queue[0].task; t.id == old(t.id) && t.done == (old(t.id) == NoneId)
    {
      hide Linked, AllPending, AllWaiting, Running, Waiting, ChannelOk, Ended, SegmentAt, Wrap, Last;
      ghost var ts, was := Queue(), ch;
      ChannelParts(fifoHead, fifoTail, udma, ch, c);
      PendingHead(ts);
      LinkedPop(ts);
      QueueTail(ch.queue);
      udma := None;
      ch := Ended(ch);
      var task: Task?<Data> := Pop(ts);
      HandleEndOfTask(task);
      task := fifoHead;
      if task != null {
        WaitingHead(was.queue[1..], c);
        LinkedPop(ts[1..]);
        QueueTail(was.queue[1..]);
        CopyExec(task);
        Started(was.queue[1], c);
      }
      QueueShifts(was, udma, c);
    }

    /** `__pi_uart_rx_abort` and `__pi_uart_tx_abort` */
    method Abort()
      requires Valid()
      modifies this
      ensures Valid() && ch == Aborted(old(ch)) && udma == None
    {
      udma := None;
      fifoHead := null;
      fifoTail := null;
      ch := Aborted(ch);
    }
  }

  /** A UART interface: direction 0 receives, direction 1 transmits. */
  class Interface {
    const rx: Direction
    const tx: Direction

    ghost predicate Valid()
      reads this, rx, tx, rx.Queue(), tx.Queue()
    {
      && rx != tx && rx.c == 0 && tx.c == 1 && rx.Valid() && tx.Valid()
      && (forall t :: t in rx.Queue() ==> t !in tx.Queue())
    }

    constructor ()
      ensures Valid() && fresh(rx) && fresh(tx) && rx.ch == Empty() && tx.ch == Empty()
    {
      rx := new Direction(0);
      tx := new Direction(1);
    }

    /** `pi_uart_write_async`; the receiving direction is not disturbed. */
    method Write(task: UartTask, buf: int, size: int) returns (status: int)
      requires Valid() && IsWord(buf) && IsWord(size) && !task.done
      requires task !in rx.Queue() && task !in tx.Queue()
      modifies tx, task`data, task`next, tx.Queue()`next
      ensures Valid() && rx.ch == old(rx.ch)
      ensures status == if InL2(buf) then 0 else -11
      ensures tx.ch == if InL2(buf) then Submitted(old(tx.ch), Entry(task, buf, size)) else old(tx.ch)
    {
      hide Submitted, ChannelOk;
      SubmittedQueue(tx.ch, Entry(task, buf, size));
      assert forall t :: t in rx.Queue() ==> t as object != tx && t != task && t !in tx.Queue();
      assert forall i :: 0 <= i < |rx.Queue()| ==> rx.Queue()[i] != task && rx.Queue()[i] !in tx.Queue();
      status := tx.Copy(task, buf, size);
      assert rx.Queue() == old(rx.Queue());
      assert tx.Queue() == if status == 0 then old(tx.Queue()) + [task] else old(tx.Queue());
      assert rx.Valid();
    }

    /** `pi_uart_read_async`; the transmitting direction is not disturbed. */
    method Read(task: UartTask, buf: int, size: int) returns (status: int)
      requires Valid() && IsWord(buf) && IsWord(size) && !task.done
      requires task !in rx.Queue() && task !in tx.Queue()
      modifies rx, task`data, task`next, rx.Queue()`next
      ensures Valid() && tx.ch == old(tx.ch)
      ensures status == if InL2(buf) then 0 else -11
      ensures rx.ch == if InL2(buf) then Submitted(old(rx.ch), Entry(task, buf, size)) else old(rx.ch)
    {
      hide Submitted, ChannelOk;
      SubmittedQueue(rx.ch, Entry(task, buf, size));
      assert forall t :: t in tx.Queue() ==> t as object != rx && t != task && t !in rx.Queue();
      assert forall i :: 0 <= i < |tx.Queue()| ==> tx.Queue()[i] != task && tx.Queue()[i] !in rx.Queue();
      status := rx.Copy(task, buf, size);
      assert tx.Queue() == old(tx.Queue());
      assert rx.Queue() == if status == 0 then old(rx.Queue()) + [task] else old(rx.Queue());
      assert tx.Valid();
    }

    /** `__pi_uart_handler`: the end of a segment on one channel leaves the other one as it
        was. */
    method Handler(channel: int)
      requires Valid() && (channel == 0 || channel == 1)
      requires if channel == 0 then rx.udma.Some? else tx.udma.Some?
      modifies if channel == 0 then rx else tx
      modifies (if channel == 0 then rx else tx).Queue()`data, (if channel == 0 then rx else tx).Queue()`done
      ensures Valid()
      ensures channel == 0 ==> old(rx.ch).queue != [] && rx.ch == Ended(old(rx.ch)) && tx.ch == old(tx.ch)
      ensures channel == 1 ==> old(tx.ch).queue != [] && tx.ch == Ended(old(tx.ch)) && rx.ch == old(rx.ch)
      ensures var e := old(if channel == 0 then rx.ch else tx.ch).queue[0];
        e.task.id == old(e.task.id) && e.task.done == (Small(e) && old(e.task.id) == NoneId)
      ensures rx.udma.Some? == (rx.ch.queue != []) && tx.udma.Some? == (tx.ch.queue != [])
    {
      hide Ended, Valid;
      if channel == 0 {
        HandleRx();
      } else {
        HandleTx();
      }
      BusyExactly();
    }

    method HandleRx()
      requires Valid() && rx.udma.Some?
      modifies rx, rx.Queue()`data, rx.Queue()`done
      ensures Valid() && old(rx.ch).queue != [] && rx.ch == Ended(old(rx.ch)) && tx.ch == old(tx.ch)
      ensures var e := old(rx.ch).queue[0];
        e.task.id == old(e.task.id) && e.task.done == (Small(e) && old(e.task.id) == NoneId)
    {
      hide Ended, ChannelOk;
      QueueShrinks(rx.ch);
      assert forall t :: t in tx.Queue() ==> t as object != rx && t !in rx.Queue();
      assert forall i :: 0 <= i < |tx.Queue()| ==> tx.Queue()[i] !in rx.Queue();
      rx.Handler();
      assert tx.Queue() == old(tx.Queue());
      assert tx.Valid();
    }

    method HandleTx()
      requires Valid() && tx.udma.Some?
      modifies tx, tx.Queue()`data, tx.Queue()`done
      ensures Valid() && old(tx.ch).queue != [] && tx.ch == Ended(old(tx.ch)) && rx.ch == old(rx.ch)
      ensures var e := old(tx.ch).queue[0];
        e.task.id == old(e.task.id) && e.task.done == (Small(e) && old(e.task.id) == NoneId)
    {
      hide Ended, ChannelOk;
      QueueShrinks(tx.ch);
      assert forall t :: t in rx.Queue() ==> t as object != tx && t !in tx.Queue();
      assert forall i :: 0 <= i < |rx.Queue()| ==> rx.Queue()[i] !in tx.Queue();
      tx.Handler();
      assert rx.Queue() == old(rx.Queue());
      assert rx.Valid();
    }

    /** The uDMA works on a channel exactly when a transfer waits there. */
    lemma BusyExactly()
      requires Valid()
      ensures rx.udma.Some? <==> rx.ch.queue != []
      ensures tx.udma.Some? <==> tx.ch.queue != []
    {
    }

    /** `__pi_uart_rx_abort` and `__pi_uart_tx_abort` leave the other channel as it was. */
    method Abort(channel: int)
      requires Valid() && (channel == 0 || channel == 1)
      modifies if channel == 0 then rx else tx
      ensures Valid()
      ensures channel == 0 ==> rx.ch == Aborted(old(rx.ch)) && rx.udma == None && tx.ch == old(tx.ch) && tx.udma == old(tx.udma)
      ensures channel == 1 ==> tx.ch == Aborted(old(tx.ch)) && tx.udma == None && rx.ch == old(rx.ch) && rx.udma == old(rx.udma)
    {
      hide Linked, AllPending, AllWaiting, Running, Waiting;
      if channel == 0 {
        rx.Abort();
      } else {
        tx.Abort();
      }
    }
  }

  // An end event adds no task to the queue.
  lemma QueueShrinks(ch: Channel<UartTask>)
    ensures ch.queue != [] ==> forall t :: t in Tasks(Ended(ch).queue) ==> t in Tasks(ch.queue)
  {
    if ch.queue != [] {
      assert forall i :: 0 <= i < |ch.queue[1..]| ==> Tasks(ch.queue[1..])[i] == Tasks(ch.queue)[i + 1];
    }
  }
}
