/** The linked FIFO of tpool_work_t nodes behind the pool of src/threadPool.c.  Its operations run with
    the queue lock held; PoolQueue ties them to ThreadPool's Append, Take and Join steps. */
module TaskQueue {
  class Work<T> {
    const task: T
    var next: Work?<T>

    constructor (task: T)
      ensures this.task == task && next == null
    {
      this.task := task;
      next := null;
    }
  }

  ghost function Successor<T>(nodes: seq<Work<T>>, i: nat): Work?<T>
    requires i < |nodes|
  {
    if i + 1 < |nodes| then nodes[i + 1] else null
  }

  class Queue<T> {
    var head: Work?<T>
    ghost var nodes: seq<Work<T>>

    ghost predicate Valid()
      reads this, nodes
    {
      && head == (if nodes == [] then null else nodes[0])
      && (forall i, j :: 0 <= i < j < |nodes| ==> nodes[i] != nodes[j])
      && (forall i :: 0 <= i < |nodes| ==> nodes[i].next == Successor(nodes, i))
    }

    ghost function Tasks(): (r: seq<T>)
      reads this
    {
      seq(|nodes|, i requires 0 <= i < |nodes| reads this => nodes[i].task)
    }

    constructor ()
      ensures Valid() && Tasks() == []
    {
      head := null;
      nodes := [];
    }

    /** add_task_2_tpool between lock and signal: walk to the tail and link the new node there. */
    method Add(task: T)
      requires Valid()
      modifies this, nodes
      ensures Valid() && Tasks() == old(Tasks()) + [task]
      ensures |nodes| == |old(nodes)| + 1 && nodes[..|old(nodes)|] == old(nodes) && fresh(nodes[|old(nodes)|])
    {
      var work := new Work(task);
      if head == null {
        head := work;
      } else {
        var member := head;
        ghost var i := 0;
        while member.next != null
          invariant i < |nodes| && member == nodes[i]
          decreases |nodes| - i
        {
          member := member.next;
          i := i + 1;
        }
        member.next := work;
      }
      nodes := nodes + [work];
    }

    /** work_routine's dequeue: the head node leaves the queue and its successor becomes the head. */
    method Take() returns (task: T)
      requires Valid() && Tasks() != []
      modifies this
      ensures Valid() && [task] + Tasks() == old(Tasks())
      ensures nodes == old(nodes)[1..]
    {
      task := head.task;
      head := head.next;
      nodes := nodes[1..];
    }

    /** The loop of destroy_tpool that frees what is left: it visits exactly the queued tasks, in order. */
    method Drain() returns (leftovers: seq<T>)
      requires Valid()
      modifies this
      ensures Valid() && Tasks() == [] && head == null
      ensures leftovers == old(Tasks())
    {
      leftovers := [];
      ghost var all := Tasks();
      while head != null
        invariant Valid()
        invariant all == leftovers + Tasks()
        decreases |nodes|
      {
        var task := Take();
        assert leftovers + ([task] + Tasks()) == (leftovers + [task]) + Tasks();
        leftovers := leftovers + [task];
      }
    }
  }
}
