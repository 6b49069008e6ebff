/** The steps of ThreadPool that touch the queue, carried out on the linked FIFO. */
module PoolQueue {
  import opened Options
  import opened ThreadPool
  import opened TaskQueue

  /** The tasks taken so far. */
  function Taken<T>(s: Pool<T>): seq<T> {
    if |s.takers| <= |s.submitted| then s.submitted[..|s.takers|] else []
  }

  /** One step on the linked nodes: Append links a node, Take unlinks the head, Join frees the rest. */
  method Carry<T>(queue: Queue<T>, s: Pool<T>, step: Step<T>) returns (taken: seq<T>, leftovers: seq<T>)
    requires Inv(s) && Enabled(s, step) && queue.Valid() && queue.Tasks() == s.queue
    modifies queue, queue.nodes
    ensures queue.Valid() && queue.Tasks() == Next(s, step).queue
    ensures forall i :: 0 <= i < |queue.nodes| ==> queue.nodes[i] in old(queue.nodes) || fresh(queue.nodes[i])
    ensures Taken(Next(s, step)) == Taken(s) + taken
    ensures Next(s, step).leftovers == if step.Join? then leftovers else s.leftovers
  {
    hide LockInv, DecisionInv, ShutdownInv, WakeInv, Inv;
    taken, leftovers := [], [];
    TakenNext(s, step);
    match step
    case Append =>
      queue.Add(s.holder.task);
    case Take(w) =>
      var task := queue.Take();
      taken := [task];
    case Join =>
      leftovers := queue.Drain();
    case _ =>
  }

  lemma TakenNext<T>(s: Pool<T>, step: Step<T>)
    requires Inv(s) && Enabled(s, step)
    ensures Taken(Next(s, step)) == Taken(s) + if step.Take? then s.queue[..1] else []
    ensures step.Take? ==> s.queue != []
    ensures !step.Append? && !step.Take? && !step.Join? ==> Next(s, step).queue == s.queue
    ensures step.Append? ==> Next(s, step).queue == s.queue + [s.holder.task]
    ensures Next(s, step).leftovers == if step.Join? then s.queue else s.leftovers
  {
    hide LockInv, ShutdownInv, WakeInv;
  }

  lemma NextIsEnabled<T>(n: nat, steps: seq<Step<T>>, i: nat, s: Pool<T>)
    requires i < |steps| && Run(Init<T>(n), steps).Some? && Run(Init<T>(n), steps[..i]) == Some(s)
    ensures Enabled(s, steps[i]) && Run(Init<T>(n), steps[..i + 1]) == Some(Next(s, steps[i]))
  {
    hide Enabled, Next;
    assert steps == steps[..i] + steps[i..] && steps[i..][0] == steps[i];
    RunConcat(Init<T>(n), steps[..i], steps[i..]);
    assert steps[..i + 1] == steps[..i] + [steps[i]];
    Extend(Init<T>(n), steps[..i], s, steps[i]);
  }

  lemma NothingTaken<T>(s: Pool<T>)
    requires s.takers == []
    ensures Run(s, []) == Some(s) && Taken(s) == []
  {
  }

  lemma TakenExactly<T>(n: nat, steps: seq<Step<T>>, s: Pool<T>)
    requires Run(Init<T>(n), steps) == Some(s)
    ensures |Takers(steps)| <= |Added(steps)| && Taken(s) == Added(steps)[..|Takers(steps)|]
  {
    hide Run;
    TaskConservation(n, steps, s);
    HistoryIsFaithful(n, steps);
  }

  /** Any interleaving, with its queue steps done on the linked nodes: the chain holds the abstract queue throughout,
      the tasks taken are the submitted ones in order, and what is freed at the end are the abstract leftovers. */
  method Replay<T>(n: nat, steps: seq<Step<T>>) returns (queue: Queue<T>, taken: seq<T>, leftovers: seq<T>)
    requires Run(Init<T>(n), steps).Some?
    ensures var s := Run(Init<T>(n), steps).value;
            queue.Valid() && queue.Tasks() == s.queue && leftovers == s.leftovers
    ensures |Takers(steps)| <= |Added(steps)| && taken == Added(steps)[..|Takers(steps)|]
  {
    hide LockInv, DecisionInv, ShutdownInv, WakeInv, Inv, TaskInv, Next, Enabled, Run, Taken;
    queue := new Queue<T>();
    taken, leftovers := [], [];
    var s := Init<T>(n);
    InitInv<T>(n);
    NothingTaken(s);
    assert steps[..0] == [];
    for i := 0 to |steps|
      invariant Run(Init<T>(n), steps[..i]) == Some(s) && Inv(s)
      invariant fresh(queue) && (forall i :: 0 <= i < |queue.nodes| ==> fresh(queue.nodes[i])) && queue.Valid() && queue.Tasks() == s.queue
      invariant leftovers == s.leftovers && taken == Taken(s)
    {
      NextIsEnabled(n, steps, i, s);
      StepKeepsInv(s, steps[i]);
      var more, rest := Carry(queue, s, steps[i]);
      taken := taken + more;
      leftovers := if steps[i].Join? then rest else leftovers;
      s := Next(s, steps[i]);
    }
    assert steps[..|steps|] == steps;
    TakenExactly(n, steps, s);
  }
}
