/**
 The SPI driver (drivers/spi.c): one transfer in flight, recorded in the
 `end_of_transfer` slot, and a queue of pending tasks linked through `next`.
 */
module Spi {
  import opened Pmsis
  import opened SpiQueue
  import opened SpiCommand

  // struct spim_cs_data; `udmaCmd` is the command buffer the uDMA reads.
  class ChipSelect {
    const cfg: bv32
    const cs: bv32
    var udmaCmd: seq<bv32>

    constructor (cfg: bv32, cs: bv32)
      ensures this.cfg == cfg && this.cs == cs
    {
      this.cfg, this.cs, udmaCmd := cfg, cs, [];
    }
  }

  // task->data[0..5]: the transfer a pending task asks for.
  datatype Data = Data(cs: ChipSelect?, buf: int, len: bv32, flags: bv32, end: Task?<Data>, isSend: int)

  type SpiTask = Task<Data>
  type SpiTransfer = Transfer<SpiTask, ChipSelect>
  type SpiDriver = Driver<SpiTask, ChipSelect>

  // What the uDMA channels are working on.
  datatype Flight = Flight(isSend: bool, buf: int, bytes: bv32, commands: seq<bv32>)

  function FlightOf(t: SpiTransfer): Flight {
    Flight(t.isSend, t.buf, BufferBytes(t.len), Commands(t.cs.cfg, t.cs.cs, t.len, t.flags, t.isSend))
  }

  function Tasks(q: seq<SpiTransfer>): (ts: seq<SpiTask>)
    ensures |ts| == |q|
    ensures forall i :: 0 <= i < |q| ==> ts[i] == q[i].task
  {
    seq(|q|, i requires 0 <= i < |q| => q[i].task)
  }

  // A pending task carries its transfer.
  ghost predicate Carries(t: SpiTransfer)
    reads t.task`data
  {
    t.len <= MAX_BITS && t.task.data == Data(t.cs, t.buf, t.len, t.flags, t.task, if t.isSend then 1 else 0)
  }

  lemma CarriesData(t: SpiTransfer)
    requires t.len <= MAX_BITS && t.task.data == Data(t.cs, t.buf, t.len, t.flags, t.task, if t.isSend then 1 else 0)
    ensures Carries(t)
  {
  }

  ghost predicate AllCarry(q: seq<SpiTransfer>)
    reads Tasks(q)`data
  {
    forall i :: 0 <= i < |q| ==> Carries(q[i])
  }

  lemma TasksMore(q: seq<SpiTransfer>, t: SpiTransfer)
    ensures Tasks(q + [t]) == Tasks(q) + [t.task]
    ensures q != [] ==> Tasks(q[1..]) == Tasks(q)[1..]
  {
  }

  lemma CarryMore(q: seq<SpiTransfer>, t: SpiTransfer)
    requires AllCarry(q) && Carries(t)
    ensures AllCarry(q + [t])
  {
  }

  lemma CarryFirst(q: seq<SpiTransfer>)
    requires AllCarry(q) && q != []
    ensures Carries(q[0]) && AllCarry(q[1..])
  {
  }

  class Spim {
    // drv_fifo
    var fifoHead: Task?<Data>
    var fifoTail: Task?<Data>
    var repeatTransfer: Task?<Data>
    var endOfTransfer: Task?<Data>
    // The uDMA and the SPI master.
    var flight: Option<Flight>
    ghost var drv: SpiDriver

    ghost function Queue(): seq<SpiTask>
      reads this
    {
      Tasks(drv.queue)
    }

    // The pending queue agrees with the abstract one.
    ghost predicate QueueValid()
      reads this, Queue()
    {
      && fifoHead == First(Queue()) && fifoTail == Last(Queue())
      && Linked(Queue()) && AllPending(Queue()) && AllCarry(drv.queue)
    }

    // At most one transfer is in flight, the one in the slot; its command words are
    // still in its buffer, and its task is not pending and was not released.
    ghost predicate SlotValid()
      reads this, if drv.current.Some? then {drv.current.value.task, drv.current.value.cs} else {}
    {
      && repeatTransfer == null
      && match drv.current
         case None => endOfTransfer == null && flight == None
         case Some(t) =>
           && endOfTransfer == t.task && !t.task.done && t.task !in Queue() && t.len <= MAX_BITS
           && flight == Some(FlightOf(t)) && t.cs.udmaCmd == flight.value.commands
    }

    ghost predicate Valid()
      reads this, Queue(), if drv.current.Some? then {drv.current.value.task, drv.current.value.cs} else {}
    {
      QueueValid() && SlotValid()
    }

    constructor ()
      ensures Valid() && drv == Idle()
    {
      fifoHead, fifoTail, repeatTransfer, endOfTransfer := null, null, null, null;
      flight := None;
      drv := Idle();
    }

    /** `__pi_spim_drv_fifo_enqueue` */
    method Enqueue(cs: ChipSelect, buf: int, len: bv32, flags: bv32, isSend: bool, task: SpiTask)
      requires QueueValid() && task !in Queue() && !task.done && len <= MAX_BITS
      modifies this`fifoHead, this`fifoTail, this`drv, task`data, task`next, Queue()`next
      ensures drv == old(drv).(queue := old(drv).queue + [Transfer(task, cs, buf, len, flags, isSend)])
      ensures QueueValid()
    {
      hide Linked, AllPending, AllCarry, Carries, First, Last;
      ghost var t := Transfer(task, cs, buf, len, flags, isSend);
      task.data := Data(cs, buf, len, flags, task, if isSend then 1 else 0);
      task.next := null;
      CarriesData(t);
      Append(task, t);
    }

    // The linking of a task that carries its transfer.
    method Append(task: SpiTask, ghost t: SpiTransfer)
      requires QueueValid() && task !in Queue() && !task.done && task.next == null
      requires task == t.task && Carries(t)
      modifies this`fifoHead, this`fifoTail, this`drv, Queue()`next
      ensures drv == old(drv).(queue := old(drv).queue + [t]) && QueueValid()
    {
      hide Linked, AllPending, AllCarry, Carries, First, Last;
      ghost var ts := Queue();
      LinksOf(ts);
      FirstLast(ts, task);
      if fifoHead == null {
        fifoHead := task;
        fifoTail := fifoHead;
      } else {
        fifoTail.next := task;
        fifoTail := fifoTail.next;
      }
      drv := drv.(queue := drv.queue + [t]);
      TasksMore(old(drv).queue, t);
      forall i | 0 <= i < |ts| ensures LinkAt(ts, i, task) {
        assert old(LinkAt(ts, i, null));
      }
      LinkedPush(ts, task);
      CarryMore(old(drv).queue, t);
      PendingMore(ts, task);
    }

    /** `__pi_spim_drv_fifo_pop` */
    method Pop() returns (task: Task?<Data>)
      requires QueueValid()
      modifies this`fifoHead, this`fifoTail, this`drv
      ensures QueueValid() && task == First(old(Queue()))
      ensures drv == if task == null then old(drv) else old(drv).(queue := old(drv).queue[1..])
      ensures task != null ==> !task.done && task !in Queue() && Carries(old(drv).queue[0])
    {
      hide Linked, AllPending, AllCarry, Carries;
      ghost var ts, q := Queue(), drv.queue;
      task := null;
      if fifoHead != null {
        LinkedPop(ts);
        PendingFirst(ts);
        CarryFirst(q);
        TasksMore(q, q[0]);
        task := fifoHead;
        fifoHead := fifoHead.next;
        if fifoHead == null {
          fifoTail := null;
        }
        drv := drv.(queue := q[1..]);
      }
    }

    /** `__pi_spi_send_async` and `__pi_spi_receive_async`, which differ in the direction
        only. More than 8192 bytes abort the program. The transfer starts when the slot is
        free, otherwise it is queued. */
    method Async(cs: ChipSelect, buf: int, len: bv32, flags: bv32, isSend: bool, task: SpiTask) returns (aborted: bool)
      requires Valid() && !task.done && task !in Queue() && (drv.current.Some? ==> task != drv.current.value.task)
      modifies this, task`data, task`next, Queue()`next, cs`udmaCmd
      ensures Valid()
      ensures aborted <==> len > 8192 * 8
      ensures drv == if aborted then old(drv) else Accept(old(drv), Transfer(task, cs, buf, len, flags, isSend))
    {
      hide Linked, AllPending, AllCarry, Commands, BufferBytes, First, Last;
      if len > MAX_BITS {
        return true;
      }
      aborted := false;
      if endOfTransfer == null {
        cs.udmaCmd := Commands(cs.cfg, cs.cs, len, flags, isSend);
        endOfTransfer := task;
        repeatTransfer := null;
        flight := Some(Flight(isSend, buf, BufferBytes(len), cs.udmaCmd));
        drv := Start(drv, Transfer(task, cs, buf, len, flags, isSend));
      } else {
        Enqueue(cs, buf, len, flags, isSend, task);
      }
    }

    /** `__pi_spim_exec_next_transfer`: the popped task is started from the words it
        carries. Its direction word is 0 or 1, so the full-duplex branch is not reached. */
    method ExecNext(task: SpiTask, ghost t: SpiTransfer)
      requires Valid() && drv.current == None && task == t.task && Carries(t)
      requires !task.done && task !in Queue()
      modifies this, task`data, task`next, Queue()`next, t.cs`udmaCmd
      ensures Valid() && drv == Start(old(drv), t)
    {
      if task.data.isSend == 1 {
        var aborted := Async(task.data.cs, task.data.buf, task.data.len, task.data.flags, true, task.data.end);
      } else if task.data.isSend == 0 {
        var aborted := Async(task.data.cs, task.data.buf, task.data.len, task.data.flags, false, task.data.end);
      } else {
        assert false;
      }
    }

    /** `spim_eot_handler`, first half: the task in the slot is released and forgotten. */
    method Complete()
      requires Valid()
      modifies this`flight, this`drv, this`endOfTransfer,
        (if drv.current.Some? then {drv.current.value.task} else {})`done
      ensures Valid() && drv == Cleared(old(drv))
      ensures old(drv).current.Some? ==>
        var t := old(drv).current.value.task; t.id == old(t.id) && t.done == (old(t.id) == NoneId) && t !in Queue()
    {
      hide Linked, AllPending, AllCarry, First, Last;
      var task := endOfTransfer;
      // the hardware has finished the transfer
      flight := None;
      drv := Cleared(drv);
      if task != null {
        HandleEndOfTask(task);
        endOfTransfer := null;
      }
    }

    /** `spim_eot_handler`: the next pending transfer is started from what its task carries.
        Nothing that remains refers to the released task. */
    method EotHandler()
      requires Valid() && Settled(drv)
      modifies this, Queue()`data, Queue()`next, (if drv.current.Some? then {drv.current.value.task} else {})`done,
        (if drv.queue != [] then {drv.queue[0].cs} else {})`udmaCmd
      ensures Valid() && Settled(drv) && drv == Ended(old(drv))
      ensures old(drv).current.Some? ==>
        var t := old(drv).current.value.task;
        t.id == old(t.id) && t.done == (old(t.id) == NoneId) && t !in Queue() && endOfTransfer != t
    {
      hide Linked, AllPending, AllCarry, Carries;
      ghost var q := drv.queue;
      if repeatTransfer != null {
        assert false;
      }
      Complete();
      var task := Pop();
      if task != null {
        TasksMore(q, q[0]);
        ExecNext(task, q[0]);
      }
    }
  }
}
