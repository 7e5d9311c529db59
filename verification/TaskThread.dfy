/** A worker's choice of its next task, between its timer heap and its queue. A task is known here
    by its timer element, which points back to it. */
module TaskThreads {
  import opened Deques
  import opened Heap
  import opened HeapOrder
  import opened Options
  import opened Timers

  type Task = OSHeapElem

  /** A parked task whose time has come, a queued one, or none. */
  datatype Choice = Resumed(task: Task) | Queued(task: Task) | Nothing

  class TaskThread {
    const heap: OSHeap
    const queue: Deque<Task>

    ghost predicate Valid()
      reads heap, heap.heap, heap.heap[..], queue, queue.nodes
    {
      heap.Valid() && Ordered(heap.slots) && queue.Valid()
    }

    constructor ()
      ensures Valid() && heap.slots == [] && queue.Elements() == []
      ensures fresh(heap) && fresh(heap.heap) && fresh(queue) && queue.cells == {}
    {
      heap := new OSHeap(1024);
      queue := new Deque();
    }

    method EnqueTask(task: Task, mallocOk: bool) returns (ret: int)
      requires Valid()
      modifies queue, queue.cells
      ensures Valid() && heap.slots == old(heap.slots) && fresh(queue.cells - old(queue.cells))
      ensures ret == if mallocOk then 0 else -1
      ensures queue.Elements() == if mallocOk then old(queue.Elements()) + [task] else old(queue.Elements())
    {
      ret := queue.Append(task, mallocOk);
    }

    /** What Entry does with a run that returned a positive number of milliseconds. */
    method Park(task: Task, now: int, taskRet: int)
      requires Valid() && !Has(heap.slots, task) && taskRet > 0
      modifies heap, heap.heap, task`value, task`current
      ensures Valid() && (heap.heap == old(heap.heap) || fresh(heap.heap))
      ensures task.current == heap && task.value == now + taskRet
      ensures multiset(heap.slots) == old(multiset(heap.slots)) + multiset{Slot(task, now + taskRet)}
      ensures queue.Elements() == old(queue.Elements())
    {
      hide HeapOrder.Insert, Ordered;
      ghost var s := heap.slots;
      task.SetValue(now + taskRet);
      heap.OthersKeep(task);
      heap.Insert(task);
      InsertCorrect(s, Slot(task, now + taskRet));
    }

    /** How long WaitForTask is willing to wait for its queue when nothing is due. */
    static function Timeout(least: Option<int>, now: int): int {
      var gap := match least case None => 0 case Some(v) => v - now;
      if gap < 10 then 10 else gap
    }

    /** Picks the next task at time now. While the worker waits on an empty queue, other threads
        append arrivals to it. It waits at least 10 ms and, if the first parked task is due later than
        that and within 2^31 ms, exactly until then; it never waits for ever for such a task. */
    method WaitForTask(now: int, arrivals: seq<Task>) returns (r: Choice, waited: Option<int>)
      requires Valid()
      modifies heap, heap.heap, set x | x in heap.slots :: x.elem, queue, queue.cells
      ensures Valid() && heap.heap == old(heap.heap)
      ensures r.Resumed? <==> exists x :: x in old(heap.slots) && x.value <= now
      ensures r.Resumed? ==>
                && old(heap.slots) != [] && r.task == old(heap.slots)[0].elem && old(heap.slots)[0].value <= now
                && (forall x :: x in old(heap.slots) ==> old(heap.slots)[0].value <= x.value)
                && multiset(heap.slots) == old(multiset(heap.slots)) - multiset{old(heap.slots)[0]}
                && queue.Elements() == old(queue.Elements()) && waited == None
      ensures !r.Resumed? ==>
                && heap.slots == old(heap.slots)
                && waited == (if old(queue.Elements()) != [] then None else
                    Some(WaitArgument(Timeout(if heap.slots == [] then None else Some(heap.slots[0].value), now))))
                && var q := (if old(queue.Elements()) == [] then arrivals else old(queue.Elements()));
                   if q == [] then r == Nothing && queue.Elements() == [] else r == Queued(q[0]) && queue.Elements() == q[1..]
      ensures !r.Resumed? && old(queue.Elements()) == [] && heap.slots == [] ==> waited == Some(10)
      ensures !r.Resumed? && old(queue.Elements()) == [] && heap.slots != [] ==>
                var gap := heap.slots[0].value - now;
                && (gap < 10 ==> waited == Some(10))
                && (gap >= 10 ==> (waited == Some(gap) <==> gap < 0x8000_0000))
                && (gap < 0x8000_0000 ==> waited.Some? && waited.value >= 10)
    {
      ghost var s := heap.slots;
      OrderedRootLeast(s);
      r := TakeDue(now);
      if r.Resumed? {
        ExtractMultiset(s, 1);
        waited := None;
        return;
      }
      var elem := heap.PeekMin();
      var timeout := 0;
      if elem != null {
        timeout := elem.value - now;
      }
      if timeout < 10 {
        timeout := 10;
      }
      r, waited := TakeQueued(timeout, arrivals);
    }

    /** The first half: the earliest parked task, if it is due. */
    method TakeDue(now: int) returns (r: Choice)
      requires Valid()
      modifies heap, heap.heap, set x | x in heap.slots :: x.elem
      ensures Valid() && heap.heap == old(heap.heap)
      ensures if old(heap.slots) != [] && old(heap.slots)[0].value <= now
              then r == Resumed(old(heap.slots)[0].elem) && heap.slots == Extract(old(heap.slots), 1)
              else r == Nothing && heap.slots == old(heap.slots)
    {
      hide Extract;
      r := Nothing;
      ghost var s := heap.slots;
      var elem := heap.PeekMin();
      if elem != null && elem.value <= now {
        assert s[0] in s;
        elem := heap.ExtractMin();
        ExtractOrderedIff(s, 1);
        r := Resumed(elem);
      }
    }

    /** The second half: the head of the queue, after waiting for it if need be. */
    method TakeQueued(timeout: int, arrivals: seq<Task>) returns (r: Choice, waited: Option<int>)
      requires queue.Valid()
      modifies queue, queue.cells
      ensures queue.Valid()
      ensures waited == if old(queue.Elements()) == [] then Some(WaitArgument(timeout)) else None
      ensures var q := if old(queue.Elements()) == [] then arrivals else old(queue.Elements());
              if q == [] then r == Nothing && queue.Elements() == []
              else r == Queued(q[0]) && queue.Elements() == q[1..]
    {
      waited := None;
      if queue.count == 0 {
        waited := Some(WaitArgument(timeout));
        for i := 0 to |arrivals|
          invariant queue.Valid() && fresh(queue.cells - old(queue.cells))
          invariant queue.Elements() == arrivals[..i]
        {
          var _ := queue.Append(arrivals[i], true);
        }
      }
      var head := queue.RemoveHead();
      r := if head == None then Nothing else Queued(head.value);
    }
  }
}
