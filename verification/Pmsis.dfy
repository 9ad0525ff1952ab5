/**
 The task structure all drivers share (drivers/include/pmsis_types.h), and queues of
 tasks linked through `next`. `D` stands for the words a driver keeps in `data`.
 */
module Pmsis {

  datatype Option<T> = None | Some(value: T)

  datatype TaskId = CallbackId | NoneId

  class Task<D(0)> {
    var id: TaskId
    var data: D
    var next: Task?<D>
    var done: bool
  }

  // End of a task in an interrupt handler: a waiting caller is released, after which the
  // task may be gone; pushing a callback is not implemented and changes nothing.
  method HandleEndOfTask<D(0)>(t: Task<D>)
    modifies t`done
    ensures t.done == (old(t.done) || t.id == NoneId)
  {
    if t.id == NoneId {
      t.done := true;
    }
  }

  // ---------------------------------------------------------------- queues

  ghost function First<D(0)>(ts: seq<Task<D>>): Task?<D> {
    if ts == [] then null else ts[0]
  }

  ghost function Last<D(0)>(ts: seq<Task<D>>): Task?<D> {
    if ts == [] then null else ts[|ts| - 1]
  }

  lemma FirstLast<D(0)>(ts: seq<Task<D>>, t: Task<D>)
    ensures First(ts + [t]) == (if ts == [] then t else First(ts)) && Last(ts + [t]) == t
    ensures (First(ts) == null <==> ts == []) && (ts != [] ==> First(ts) == ts[0] && Last(ts) == ts[|ts| - 1])
  {
  }

  ghost predicate Distinct<D(0)>(ts: seq<Task<D>>) {
    forall i, j :: 0 <= i < j < |ts| ==> ts[i] != ts[j]
  }

  // What `next` of task `i` must be in a queue that ends by pointing to `last`.
  ghost predicate LinkAt<D(0)>(ts: seq<Task<D>>, i: nat, last: Task?<D>)
    requires i < |ts|
    reads {ts[i]}`next
  {
    ts[i].next == if i + 1 < |ts| then ts[i + 1] else last
  }

  // The tasks are linked in this order, the last one to nothing.
  ghost predicate Linked<D(0)>(ts: seq<Task<D>>)
    reads ts`next
  {
    Distinct(ts) && forall i :: 0 <= i < |ts| ==> LinkAt(ts, i, null)
  }

  // None of the tasks has been released.
  ghost predicate AllPending<D(0)>(ts: seq<Task<D>>)
    reads ts`done
  {
    forall i :: 0 <= i < |ts| ==> !ts[i].done
  }

  lemma LinksOf<D(0)>(ts: seq<Task<D>>)
    requires Linked(ts)
    ensures Distinct(ts) && forall i :: 0 <= i < |ts| ==> LinkAt(ts, i, null)
  {
  }

  /** Behind the first task the queue goes on. */
  lemma LinkedPop<D(0)>(ts: seq<Task<D>>)
    requires Linked(ts) && ts != []
    ensures Linked(ts[1..]) && ts[0].next == First(ts[1..]) && ts[0] !in ts[1..]
    ensures First(ts[1..]) == null ==> ts[1..] == []
    ensures ts[1..] != [] ==> Last(ts[1..]) == Last(ts)
  {
    assert LinkAt(ts, 0, null);
    forall i | 0 <= i < |ts[1..]| ensures LinkAt(ts[1..], i, null) {
      assert LinkAt(ts, i + 1, null);
    }
  }

  /** A task linked behind the last one. */
  lemma LinkedPush<D(0)>(ts: seq<Task<D>>, t: Task<D>)
    requires Distinct(ts) && t !in ts && t.next == null
    requires forall i :: 0 <= i < |ts| ==> LinkAt(ts, i, t)
    ensures Linked(ts + [t])
  {
    forall i | 0 <= i < |ts| ensures LinkAt(ts + [t], i, null) {
      assert LinkAt(ts, i, t);
    }
  }

  lemma PendingMore<D(0)>(ts: seq<Task<D>>, t: Task<D>)
    requires AllPending(ts) && !t.done
    ensures AllPending(ts + [t])
  {
  }

  lemma PendingFirst<D(0)>(ts: seq<Task<D>>)
    requires AllPending(ts) && ts != []
    ensures !ts[0].done && AllPending(ts[1..])
  {
  }
}
