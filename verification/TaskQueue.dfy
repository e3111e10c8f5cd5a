/**
 The pending-task list of src/shared/thread_pool.c: the two critical sections whose effect the step
 system takes as one step each. A task is appended by walking a pointer to a link to the
 end, and taken from the front.
 */
module TaskQueue {
  import opened Lists

  class TaskQueue<T> {
    const limit: nat
    var first: Node?<T>
    var size: nat
    ghost var spine: seq<Node<T>>

    ghost predicate Valid()
      reads this, spine
    {
      Chain(first, spine) && size == |spine| <= limit < 0x1_0000_0000
    }

    ghost function Tasks(): seq<T>
      reads this, spine
    {
      Values(spine)
    }

    constructor (limit: nat)
      requires limit < 0x1_0000_0000
      ensures Valid() && this.limit == limit && spine == [] && Tasks() == []
    {
      this.limit := limit;
      first, size, spine := null, 0, [];
    }

    /** The critical section of `ps14_thread_pool_submit`. */
    method Append(task: Node<T>) returns (accepted: bool)
      requires Valid() && task !in spine && task.next == null
      modifies this, spine, task
      ensures Valid()
      ensures accepted == (|old(spine)| < limit)
      ensures spine == if accepted then old(spine) + [task] else old(spine)
      ensures Tasks() == if accepted then old(Tasks()) + [old(task.value)] else old(Tasks())
    {
      hide Chain, Values;
      if size >= limit {
        return false;
      }
      ghost var values := Values(spine);
      ChainAt(first, spine, 0);
      if first == null {
        first := task;
      } else {
        var link := LastNode(first, spine);
        ChainDistinct(first, spine);
        LinksExceptLast(first, spine);
        link.next := task;
      }
      Appended(first, spine, task);
      assert Values(spine) == values;
      spine := spine + [task];
      size := (size + 1) % 0x1_0000_0000;
      accepted := true;
    }

    /** The critical section of a worker. */
    method Take() returns (task: Node?<T>)
      requires Valid()
      modifies this
      ensures Valid()
      ensures task == At(old(spine), 0)
      ensures spine == if task == null then old(spine) else old(spine)[1..]
      ensures Tasks() == if task == null then old(Tasks()) else old(Tasks())[1..]
    {
      task := first;
      if task != null {
        first := task.next;
        spine := spine[1..];
        size := size - 1;
      }
    }
  }
}
