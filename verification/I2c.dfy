/**
 The I2C driver (drivers/i2c.c), built with end-of-transfer interrupts: one slot for the
 transfer in flight, a queue of pending tasks linked through `next`, and the command
 buffer that the transmit channel reads.
 */
module I2c {
  import opened Pmsis
  import opened I2cStream
  import opened I2cQueue
  import opened Words

  const RX_CHANNEL := 0
  const CMD_BUFF_SIZE := 16

  // task->data[0..4]
  datatype Data = Data(buf: int, size: nat, flags: bv32, channel: int, slave: Slave)

  type I2cTask = Task<Data>
  type I2cTransfer = Transfer<I2cTask>
  type I2cDriver = Driver<I2cTask>

  function Tasks(q: seq<I2cTransfer>): (ts: seq<I2cTask>)
    ensures |ts| == |q|
    ensures forall i :: 0 <= i < |q| ==> ts[i] == q[i].task
  {
    seq(|q|, i requires 0 <= i < |q| => q[i].task)
  }

  lemma TasksMore(q: seq<I2cTransfer>, t: I2cTransfer)
    ensures Tasks(q + [t]) == Tasks(q) + [t.task]
    ensures q != [] ==> Tasks(q[1..]) == Tasks(q)[1..]
  {
  }

  // What memory holds in a buffer.
  function Content(memory: int -> int, buf: int, size: nat): (s: seq<int>)
    ensures |s| == size && forall i :: 0 <= i < size ==> s[i] == memory(buf + i)
  {
    seq(size, i requires 0 <= i < size => memory(buf + i))
  }

  // The transfer that a submission of these words asks for.
  function Asked(memory: int -> int, task: I2cTask, w: Data): I2cTransfer {
    Transfer(task, w.slave, w.buf, w.size, w.flags, w.channel == RX_CHANNEL,
             if w.channel == RX_CHANNEL then [] else Content(memory, w.buf, w.size))
  }

  predicate GoodData(w: Data) {
    w.slave.Valid() && w.size < WORD
  }

  // A pending task carries its transfer.
  ghost predicate Carries(memory: int -> int, t: I2cTransfer)
    reads t.task`data
  {
    GoodData(t.task.data) && t == Asked(memory, t.task, t.task.data)
  }

  ghost predicate AllCarry(memory: int -> int, q: seq<I2cTransfer>)
    reads Tasks(q)`data
  {
    forall i :: 0 <= i < |q| ==> Carries(memory, q[i])
  }

  lemma CarryMore(memory: int -> int, q: seq<I2cTransfer>, t: I2cTransfer)
    requires AllCarry(memory, q) && Carries(memory, t)
    ensures AllCarry(memory, q + [t])
  {
  }

  lemma CarryFirst(memory: int -> int, q: seq<I2cTransfer>)
    requires AllCarry(memory, q) && q != []
    ensures Carries(memory, q[0]) && AllCarry(memory, q[1..])
  {
  }

  // The command bytes of a transfer, without the data.
  function CommandsOf(t: I2cTransfer): seq<int> {
    if t.isRead then ReadCommands(t.slave, t.Part()) else WriteCommands(t.slave, t.Part(), t.Starts())
  }

  lemma ExecFields(d: I2cDriver, t: I2cTransfer)
    requires !t.Dropped()
    ensures var e := Exec(d, t);
      && e.slot == Some(t) && e.queue == d.queue && e.wait == d.wait
      && e.pending == Started(d, t).pending && e.stopSend == Started(d, t).stopSend && e.eotSend == Started(d, t).eotSend
      && e.windows == d.windows + t.Receives() && e.unsignalled == d.unsignalled + t.Buffers()
      && e.wire == if t.isRead then d.wire + CommandsOf(t) + [] else d.wire + CommandsOf(t) + t.FirstBytes()
  {
  }

  lemma DropFields(d: I2cDriver, t: I2cTransfer)
    requires t.Dropped()
    ensures Exec(d, t) == d.(taken := d.taken + [t])
  {
  }

  // What the transmit interrupt changes.
  lemma TxFields(d: I2cDriver)
    ensures var e := TxEnded(d);
      && e.slot == d.slot && e.queue == d.queue && e.wait == d.wait && e.windows == d.windows
      && (if d.pending.repeat != 0
          then
            && e.pending == Continued(d).pending && e.stopSend == Continued(d).stopSend && e.eotSend == d.eotSend
            && e.wire == d.wire && e.unsignalled == d.unsignalled
          else
            && e.pending == d.pending && !e.stopSend && !e.eotSend
            && e.wire == d.wire + (if d.stopSend || d.eotSend then Trailer(d.stopSend, d.wait) else [])
            && e.unsignalled == d.unsignalled + if d.stopSend || d.eotSend then 1 else 0)
    ensures d.wire + [] == d.wire
  {
    hide Trailer;
  }

  lemma SignalledFields(d: I2cDriver)
    requires d.unsignalled > 0
    ensures Signalled(d) == TxEnded(d.(unsignalled := d.unsignalled - 1))
    ensures FlagsKept(d) && d.pending.repeat != 0 ==> d.slot.Some? && !d.slot.value.Short()
  {
  }

  lemma AskedCarries(memory: int -> int, task: I2cTask)
    requires GoodData(task.data)
    ensures Carries(memory, Asked(memory, task, task.data))
    ensures Asked(memory, task, task.data).isRead <==> task.data.channel == RX_CHANNEL
  {
  }

  // The words a started transfer is taken from.
  lemma CarriedWords(memory: int -> int, t: I2cTransfer)
    requires Carries(memory, t)
    ensures var w := t.task.data;
      && w.size == t.size && w.slave == t.slave && w.buf == t.buf && w.flags == t.flags
      && (!t.isRead ==> Content(memory, w.buf, t.Part()) == t.FirstBytes())
  {
  }

  lemma CarriesChannel(memory: int -> int, t: I2cTransfer)
    requires Carries(memory, t)
    ensures t.isRead <==> t.task.data.channel == RX_CHANNEL
  {
  }

  class Interface {
    // struct i2c_itf_data_s
    var slot: Task?<Data>
    var fifoHead: Task?<Data>
    var fifoTail: Task?<Data>
    var pending: Pending
    const cmdSeq: array<int>
    var stopSend: bool
    var eotSend: bool
    const stopSeq: seq<int>
    // The buffers queued on the transmit channel, byte by byte, and on the receive channel.
    var wire: seq<int>
    var windows: seq<Window>
    // Buffers on the transmit channel that it has not signalled yet.
    var unsignalled: nat
    // The buffers of writes.
    const memory: int -> int
    ghost var drv: I2cDriver

    ghost function Queue(): seq<I2cTask>
      reads this
    {
      Tasks(drv.queue)
    }

    // The pending queue agrees with the abstract one; `fifoTail` means nothing while the
    // queue is empty.
    ghost predicate QueueValid()
      reads this, Queue()
    {
      && fifoHead == First(Queue()) && (Queue() != [] ==> fifoTail == Last(Queue()))
      && Linked(Queue()) && AllPending(Queue()) && AllCarry(memory, drv.queue)
    }

    ghost predicate Constants()
      reads this
    {
      && cmdSeq.Length == CMD_BUFF_SIZE && stopSeq == Trailer(true, drv.wait)
    }

    ghost predicate Registers()
      reads this
    {
      pending == drv.pending && stopSend == drv.stopSend && eotSend == drv.eotSend
      && wire == drv.wire && windows == drv.windows && unsignalled == drv.unsignalled
    }

    // The task of the transfer in flight is not pending and was not released. The command
    // buffer still holds its commands; those of a long transfer may be overwritten.
    ghost predicate SlotValid()
      reads this, cmdSeq, if drv.slot.Some? then {drv.slot.value.task} else {}
    {
      && Constants() && Registers()
      && match drv.slot
         case None => slot == null
         case Some(t) =>
           && slot == t.task && !t.task.done && t.task !in Queue()
           && (t.Short() ==> |CommandsOf(t)| <= CMD_BUFF_SIZE && cmdSeq[..|CommandsOf(t)|] == CommandsOf(t))
    }

    ghost predicate Valid()
      reads this, cmdSeq, Queue(), if drv.slot.Some? then {drv.slot.value.task} else {}
    {
      QueueValid() && SlotValid()
    }

    /** The part of `__pi_i2c_open` that sets up the driver data. */
    constructor (waitCycles: nat, memory: int -> int)
      ensures Valid() && fresh(cmdSeq) && cmdSeq.Length == 16 && this.memory == memory
      ensures drv == Idle(if waitCycles > 0xFF then 0xFF else waitCycles)
    {
      this.memory := memory;
      slot, fifoHead, fifoTail, pending := null, null, null, Pending(0, 0, 0, 0, 0);
      cmdSeq := new int[CMD_BUFF_SIZE](_ => 0);
      stopSend, eotSend := false, false;
      var wait := if waitCycles > 0xFF then 0xFF else waitCycles;
      stopSeq := [CMD_STOP, CMD_WAIT, wait, CMD_EOT];
      wire, windows, unsignalled := [], [], 0;
      drv := Idle(wait);
    }

    /** `__pi_i2c_task_fifo_enqueue` */
    method Enqueue(task: I2cTask, ghost t: I2cTransfer)
      requires QueueValid() && task !in Queue() && !task.done && task.next == null
      requires task == t.task && Carries(memory, t)
      modifies this`fifoHead, this`fifoTail, this`drv, Queue()`next
      ensures drv == old(drv).(queue := old(drv).queue + [t])
      ensures QueueValid()
    {
      hide Linked, AllPending, AllCarry, Carries, First, Last;
      ghost var ts := Queue();
      FirstLast(ts, task);
      LinksOf(ts);
      if fifoHead == null {
        fifoHead := task;
      } else {
        fifoTail.next := task;
      }
      fifoTail := task;
      drv := drv.(queue := drv.queue + [t]);
      TasksMore(old(drv).queue, t);
      forall i | 0 <= i < |ts| ensures LinkAt(ts, i, task) {
        assert old(LinkAt(ts, i, null));
      }
      LinkedPush(ts, task);
      CarryMore(memory, old(drv).queue, t);
      PendingMore(ts, task);
    }

    /** `__pi_i2c_task_fifo_pop`, which leaves `fifoTail` behind. */
    method Pop() returns (task: Task?<Data>)
      requires QueueValid()
      modifies this`fifoHead, this`drv
      ensures QueueValid() && task == First(old(Queue()))
      ensures drv == if task == null then old(drv) else old(drv).(queue := old(drv).queue[1..])
      ensures task != null ==> !task.done && task !in Queue() && Carries(memory, old(drv).queue[0])
    {
      hide Linked, AllPending, AllCarry, Carries;
      ghost var ts, q := Queue(), drv.queue;
      task := null;
      if fifoHead != null {
        LinkedPop(ts);
        PendingFirst(ts);
        CarryFirst(memory, q);
        TasksMore(q, q[0]);
        task := fifoHead;
        fifoHead := fifoHead.next;
        drv := drv.(queue := q[1..]);
      }
    }

    // The header, and the address unless `start` is false.
    method FillHeader(slave: Slave, start: bool, address: int) returns (index: nat)
      requires cmdSeq.Length == CMD_BUFF_SIZE
      modifies cmdSeq
      ensures index <= 6
      ensures cmdSeq[..index] == Header(slave) + if start then [CMD_START, CMD_WR, address] else []
    {
      index := 0;
      cmdSeq[index] := CMD_CFG; index := index + 1;
      cmdSeq[index] := slave.clkDiv / 256 % 256; index := index + 1;
      cmdSeq[index] := slave.clkDiv % 256; index := index + 1;
      if start {
        cmdSeq[index] := CMD_START; index := index + 1;
        cmdSeq[index] := CMD_WR; index := index + 1;
        cmdSeq[index] := address; index := index + 1;
      }
    }

    // The commands of a read.
    method FillRead(slave: Slave, size: nat) returns (index: nat)
      requires cmdSeq.Length == CMD_BUFF_SIZE && size > 0
      modifies cmdSeq
      ensures index <= CMD_BUFF_SIZE && cmdSeq[..index] == ReadCommands(slave, size)
    {
      index := FillHeader(slave, true, ReadAddress(slave.addr));
      if size > 1 {
        cmdSeq[index] := CMD_RPT; index := index + 1;
        cmdSeq[index] := size - 1; index := index + 1;
        cmdSeq[index] := CMD_RD_ACK; index := index + 1;
      }
      cmdSeq[index] := CMD_RD_NACK; index := index + 1;
    }

    // The commands of a write.
    method FillWrite(slave: Slave, size: nat, start: bool) returns (index: nat)
      requires cmdSeq.Length == CMD_BUFF_SIZE
      modifies cmdSeq
      ensures index <= CMD_BUFF_SIZE && cmdSeq[..index] == WriteCommands(slave, size, start)
    {
      index := FillHeader(slave, start, slave.addr);
      if size > 0 {
        cmdSeq[index] := CMD_RPT; index := index + 1;
        cmdSeq[index] := size; index := index + 1;
        cmdSeq[index] := CMD_WR; index := index + 1;
      }
    }

    // What is noted about the transfer, and the size of its first part.
    method Note(task: I2cTask, ghost t: I2cTransfer) returns (size: nat)
      requires Registers() && task == t.task && Carries(memory, t)
      modifies this`pending, this`stopSend, this`eotSend
      ensures pending == Started(drv, t).pending && stopSend == Started(drv, t).stopSend && eotSend == Started(drv, t).eotSend
      ensures size == t.Part()
    {
      size := task.data.size;
      if size > MAX_SIZE {
        pending := pending.(buf := task.data.buf, repeat := MAX_SIZE, left := size, flags := task.data.flags);
        size := MAX_SIZE;
      } else {
        pending := pending.(repeat := 0);
        stopSend := task.data.flags & NO_STOP == 0;
        eotSend := true;
      }
    }

    // The end of both: the slot and the channels.
    method Launch(task: I2cTask, index: nat, content: seq<int>, received: seq<Window>, ghost t: I2cTransfer)
      requires QueueValid() && Constants() && wire == drv.wire && windows == drv.windows && unsignalled == drv.unsignalled
      requires pending == Started(drv, t).pending && stopSend == Started(drv, t).stopSend && eotSend == Started(drv, t).eotSend
      requires task == t.task && !task.done && task !in Queue()
      requires !t.Dropped() && index <= CMD_BUFF_SIZE && cmdSeq[..index] == CommandsOf(t)
      requires received == t.Receives() && content == (if t.isRead then [] else t.FirstBytes()) && (!t.isRead ==> |content| == t.Part())
      modifies this`slot, this`wire, this`windows, this`unsignalled, this`drv
      ensures Valid() && drv == Exec(old(drv), t) && drv.queue == old(drv).queue && slot == task
    {
      hide Linked, AllPending, AllCarry, CommandsOf, Trailer, Exec, Started, First, Last;
      ExecFields(drv, t);
      drv := Exec(drv, t);
      slot := task;
      windows := windows + received;
      wire, unsignalled := wire + cmdSeq[..index], unsignalled + 1;
      if |content| > 0 {
        wire, unsignalled := wire + content, unsignalled + 1;
      }
      assert QueueValid();
    }

    /** `__pi_i2c_copy_exec_read` */
    method ExecRead(task: I2cTask, ghost t: I2cTransfer)
      requires Valid() && drv.slot == None && task == t.task && Carries(memory, t) && t.isRead
      requires !task.done && task !in Queue()
      modifies this`slot, this`pending, this`stopSend, this`eotSend, this`wire, this`windows, this`unsignalled, this`drv, cmdSeq
      ensures Valid() && drv == Exec(old(drv), t) && drv.queue == old(drv).queue
      ensures slot == null || slot == task
    {
      hide Linked, AllPending, AllCarry, ReadCommands, Trailer, Exec, Started, Carries, First, Last;
      CarriedWords(memory, t);
      if task.data.size == 0 {
        DropFields(drv, t);
        drv := Exec(drv, t);
        return;
      }
      var size := Note(task, t);
      var index := FillRead(task.data.slave, size);
      Launch(task, index, [], [Window(task.data.buf, size)], t);
    }

    /** `__pi_i2c_copy_exec_write` */
    method ExecWrite(task: I2cTask, ghost t: I2cTransfer)
      requires Valid() && drv.slot == None && task == t.task && Carries(memory, t) && !t.isRead
      requires !task.done && task !in Queue()
      modifies this`slot, this`pending, this`stopSend, this`eotSend, this`wire, this`windows, this`unsignalled, this`drv, cmdSeq
      ensures Valid() && drv == Exec(old(drv), t) && drv.queue == old(drv).queue
      ensures slot == task
    {
      hide Linked, AllPending, AllCarry, WriteCommands, Trailer, Exec, Started, Carries, First, Last, Content;
      CarriedWords(memory, t);
      var size := Note(task, t);
      var index := FillWrite(task.data.slave, size, task.data.flags & NO_START == 0);
      Launch(task, index, Content(memory, task.data.buf, size), [], t);
    }

    // A transfer is started in its direction.
    method Execute(task: I2cTask, ghost t: I2cTransfer)
      requires Valid() && drv.slot == None && task == t.task && Carries(memory, t)
      requires !task.done && task !in Queue()
      modifies this`slot, this`pending, this`stopSend, this`eotSend, this`wire, this`windows, this`unsignalled, this`drv, cmdSeq
      ensures Valid() && drv == Exec(old(drv), t) && drv.queue == old(drv).queue
      ensures slot == null || slot == task
    {
      hide Linked, AllPending, AllCarry, Carries, Exec, First, Last, CommandsOf, Trailer;
      CarriesChannel(memory, t);
      if task.data.channel == RX_CHANNEL {
        ExecRead(task, t);
      } else {
        ExecWrite(task, t);
      }
    }

    // The words of a task that is neither queued nor in the slot.
    method Prepare(task: I2cTask, words: Data)
      requires Valid() && GoodData(words)
      requires task !in Queue() && (drv.slot.Some? ==> task != drv.slot.value.task)
      modifies task`data, task`next
      ensures Valid() && task.data == words && task.next == null
      ensures Carries(memory, Asked(memory, task, words))
    {
      hide Linked, AllPending, AllCarry, GoodData, Carries, CommandsOf, Trailer, First, Last, Content;
      task.data := words;
      task.next := null;
      AskedCarries(memory, task);
      assert QueueValid() && SlotValid();
    }

    // The slot is taken: the transfer waits.
    method Wait(task: I2cTask, ghost t: I2cTransfer)
      requires Valid() && drv.slot.Some? && task != drv.slot.value.task
      requires task !in Queue() && !task.done && task.next == null && task == t.task && Carries(memory, t)
      modifies this`fifoHead, this`fifoTail, this`drv, Queue()`next
      ensures Valid() && drv == Accept(old(drv), t)
    {
      hide Linked, AllPending, AllCarry, Exec, GoodData, Carries, CommandsOf, Trailer, First, Last, Content;
      TasksMore(drv.queue, t);
      Enqueue(task, t);
    }

    /** `__pi_i2c_copy`: the transfer starts when the slot is free, otherwise it is queued. */
    method Copy(slave: Slave, buf: int, length: nat, flags: bv32, channel: int, task: I2cTask)
      requires Valid() && GoodData(Data(buf, length, flags, channel, slave))
      requires !task.done && task !in Queue() && (drv.slot.Some? ==> task != drv.slot.value.task)
      modifies this, task`data, task`next, Queue()`next, cmdSeq
      ensures Valid()
      ensures drv == Accept(old(drv), Asked(memory, task, Data(buf, length, flags, channel, slave)))
      ensures var t := Asked(memory, task, Data(buf, length, flags, channel, slave));
        && t.task == task && t.slave == slave && t.buf == buf && t.size == length && t.flags == flags
        && t.isRead == (channel == RX_CHANNEL)
        && (channel != RX_CHANNEL ==> |t.bytes| == length && forall i :: 0 <= i < length ==> t.bytes[i] == memory(buf + i))
    {
      hide QueueValid, Exec, GoodData, Carries, CommandsOf, Trailer, Content;
      ghost var t := Asked(memory, task, Data(buf, length, flags, channel, slave));
      Prepare(task, Data(buf, length, flags, channel, slave));
      if slot != null {
        Wait(task, t);
      } else {
        Execute(task, t);
      }
    }

    /** `__pi_i2c_handle_pending_transfer`: the next part is prepared, but never queued. */
    method HandlePending(ghost d: I2cDriver)
      requires Constants() && pending == d.pending && stopSend == d.stopSend
      modifies this`pending, this`stopSend, cmdSeq
      ensures pending == Continued(d).pending && stopSend == Continued(d).stopSend
      ensures cmdSeq[..] == old(cmdSeq[..])[0 := CMD_RPT][1 := pending.size][2 := CMD_WR]
    {
      pending := pending.(buf := Wrap(pending.buf + pending.repeat));
      pending := pending.(left := Wrap(pending.left - pending.repeat));
      pending := pending.(size := pending.repeat);
      if pending.left <= pending.repeat {
        pending := pending.(repeat := 0);
        pending := pending.(size := pending.left);
        stopSend := pending.flags & NO_STOP == 0;
      }
      var index := 0;
      cmdSeq[index] := CMD_RPT; index := index + 1;
      cmdSeq[index] := pending.size; index := index + 1;
      cmdSeq[index] := CMD_WR; index := index + 1;
    }

    /** `__pi_i2c_send_stop_cmd` */
    method SendStop()
      requires Constants()
      modifies this`stopSend, this`eotSend, this`wire, this`unsignalled
      ensures !stopSend && !eotSend && wire == old(wire) + Trailer(true, drv.wait) && unsignalled == old(unsignalled) + 1
    {
      stopSend := false;
      eotSend := false;
      wire, unsignalled := wire + stopSeq, unsignalled + 1;
    }

    /** `__pi_i2c_send_only_eot_cmd` */
    method SendOnlyEot()
      requires Constants()
      modifies this`eotSend, this`wire, this`unsignalled
      ensures !eotSend && wire == old(wire) + Trailer(false, drv.wait) && unsignalled == old(unsignalled) + 1
    {
      eotSend := false;
      wire, unsignalled := wire + stopSeq[1..4], unsignalled + 1;
    }

    // What the transmit interrupt does: a part of a long transfer is counted, or the trailer
    // that is due is queued.
    method Dispatch(ghost d: I2cDriver)
      requires Constants() && d.wait == drv.wait
      requires pending == d.pending && stopSend == d.stopSend && eotSend == d.eotSend && wire == d.wire && unsignalled == d.unsignalled
      modifies this`pending, this`stopSend, this`eotSend, this`wire, this`unsignalled, cmdSeq
      ensures var e := TxEnded(d);
        pending == e.pending && stopSend == e.stopSend && eotSend == e.eotSend && wire == e.wire && unsignalled == e.unsignalled
      ensures old(pending.repeat) == 0 ==> cmdSeq[..] == old(cmdSeq[..])
    {
      hide Trailer, TxEnded, Continued;
      TxFields(d);
      if pending.repeat != 0 {
        HandlePending(d);
      } else if stopSend {
        SendStop();
      } else if eotSend {
        SendOnlyEot();
      }
    }

    /** `__pi_i2c_tx_handler`, for one of the buffers queued on the transmit channel. */
    method TxHandler()
      requires Valid() && FlagsKept(drv) && unsignalled > 0
      modifies this`pending, this`stopSend, this`eotSend, this`wire, this`unsignalled, this`drv, cmdSeq
      ensures Valid() && drv == Signalled(old(drv))
    {
      hide Linked, AllPending, AllCarry, First, Last, FlagsKept, Trailer, CommandsOf, TxEnded, Signalled;
      ghost var d := drv.(unsignalled := drv.unsignalled - 1);
      SignalledFields(drv);
      TxFields(d);
      // the channel has signalled the buffer
      unsignalled := unsignalled - 1;
      drv := TxEnded(d);
      assert QueueValid();
      Dispatch(d);
    }

    /** `__pi_i2c_eot_handler`, first half: the task in the slot is released and forgotten. */
    method Complete()
      requires Valid()
      modifies this`slot, this`drv, (if drv.slot.Some? then {drv.slot.value.task} else {})`done
      ensures Valid() && drv == Cleared(old(drv))
      ensures old(drv).slot.Some? ==>
        var t := old(drv).slot.value.task; t.id == old(t.id) && t.done == (old(t.id) == NoneId) && t !in Queue()
    {
      hide Linked, AllPending, AllCarry, First, Last, CommandsOf, Trailer;
      var task := slot;
      slot := null;
      drv := Cleared(drv);
      if task != null {
        HandleEndOfTask(task);
      }
    }

    /** `__pi_i2c_eot_handler`: the next pending transfer is started from what its task
        carries. Of the pointers the driver follows, none refers to the released task. */
    method EotHandler()
      requires Valid()
      modifies this, cmdSeq, (if drv.slot.Some? then {drv.slot.value.task} else {})`done
      ensures Valid() && drv == Ended(old(drv))
      ensures old(drv).slot.Some? ==>
        var t := old(drv).slot.value.task;
        t.id == old(t.id) && t.done == (old(t.id) == NoneId) && t !in Queue() && slot != t && fifoHead != t
    {
      hide Linked, AllPending, AllCarry, Exec, Carries, GoodData, Asked, CommandsOf, Trailer, Last;
      ghost var q := drv.queue;
      Complete();
      var task := Pop();
      if task != null {
        TasksMore(q, q[0]);
        Execute(task, q[0]);
      }
    }
  }
}
