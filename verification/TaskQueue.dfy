/** The task queue as the source stores it: a vector reordered by `swap_remove`, a redundant count
    per agent and the service log, all updated in place
    (crates/pengu-mesh-core/src/task_queue.rs). Every method refines a step of TaskQueueRuns. */
module TaskQueues {
  import opened Common
  import opened Counting
  import opened TaskOrder
  import opened TaskQueueRuns

  /** `Vec::swap_remove`: the last element takes the place of the removed one. */
  function SwapRemove(tasks: seq<Task>, i: nat): (rest: seq<Task>)
    requires i < |tasks|
    ensures |rest| == |tasks| - 1
    ensures multiset(rest) == multiset(tasks) - multiset{tasks[i]}
  {
    var n := |tasks| - 1;
    assert tasks == tasks[..i] + [tasks[i]] + tasks[i + 1..];
    if i == n then
      assert tasks == tasks[..n] + [tasks[n]];
      tasks[..n]
    else
      assert tasks[i + 1..] == tasks[i + 1..n] + [tasks[n]];
      assert tasks[i := tasks[n]][..n] == tasks[..i] + [tasks[n]] + tasks[i + 1..n];
      tasks[i := tasks[n]][..n]
  }

  /** The first position holding a task with this id, as `cancel` looks for it. */
  function PositionOf(tasks: seq<Task>, id: string): (pos: Option<nat>)
    ensures pos.Some? ==> pos.value < |tasks| && tasks[pos.value].id == id
    ensures pos.Some? ==> forall k | 0 <= k < pos.value :: tasks[k].id != id
    ensures pos.None? ==> forall t | t in tasks :: t.id != id
  {
    if tasks == [] then None
    else if tasks[0].id == id then Some(0)
    else
      match PositionOf(tasks[1..], id)
      case None => None
      case Some(k) => Some(k + 1)
  }

  function AfterCancel(tasks: seq<Task>, id: string): seq<Task> {
    match PositionOf(tasks, id)
    case None => tasks
    case Some(pos) => SwapRemove(tasks, pos)
  }

  /** The stored counts are exactly the nonzero numbers of waiting tasks per agent. */
  ghost predicate CountsAgree(counts: map<string, nat>, waiting: multiset<Task>) {
    forall agent ::
      && (agent in counts <==> AgentCount(waiting, agent) > 0)
      && (agent in counts ==> counts[agent] == AgentCount(waiting, agent))
  }

  lemma CountsAgreeAfterAdding(counts: map<string, nat>, waiting: multiset<Task>, task: Task)
    requires CountsAgree(counts, waiting)
    ensures AgentCount(waiting, task.agentId) == if task.agentId in counts then counts[task.agentId] else 0
    ensures CountsAgree(counts[task.agentId := AgentCount(waiting, task.agentId) + 1], waiting + multiset{task})
  {
    forall agent ensures AgentCount(waiting + multiset{task}, agent)
                      == (if task.agentId == agent then 1 else 0) + AgentCount(waiting, agent) {
      AgentCountAdd(waiting, task, agent);
    }
  }

  class TaskQueue {
    const config: Config
    var tasks: seq<Task>
    var agentCounts: map<string, nat>
    var lastServed: ServiceLog
    var nextServiceOrder: nat

    ghost function Abs(): Queue
      reads this
    {
      Queue(config, multiset(tasks), lastServed, nextServiceOrder)
    }

    ghost predicate Valid()
      reads this
    {
      CountsAgree(agentCounts, multiset(tasks)) && Invariant(Abs())
    }

    constructor (config: Config)
      ensures Valid() && Abs() == Fresh(config)
    {
      this.config := config;
      tasks := [];
      agentCounts := map[];
      lastServed := map[];
      nextServiceOrder := 0;
      new;
      FreshQueueInvariant(config);
    }

    method Enqueue(task: Task) returns (r: Result<(), QueueError>)
      requires Valid()
      modifies this
      ensures Valid()
      ensures Step(old(Abs()), if r.Ok? then Accepted(task) else Refused(task, r.error), Abs())
      ensures tasks == if r.Ok? then old(tasks) + [task] else old(tasks)
      ensures r.Ok? <==>
        |old(tasks)| < config.maxCapacity && AgentCount(multiset(old(tasks)), task.agentId) < config.maxPerAgent
      ensures r == Err(AtCapacity) <==> |old(tasks)| >= config.maxCapacity
    {
      hide Invariant, AgentCount;
      if |tasks| >= config.maxCapacity {
        return Err(AtCapacity);
      }
      var agentCount := if task.agentId in agentCounts then agentCounts[task.agentId] else 0;
      if agentCount >= config.maxPerAgent {
        return Err(AgentLimitReached);
      }
      CountsAgreeAfterAdding(agentCounts, multiset(tasks), task);
      agentCounts := agentCounts[task.agentId := agentCount + 1];
      tasks := tasks + [task];
      assert multiset(tasks) == old(multiset(tasks)) + multiset{task};
      StepKeepsInvariant(old(Abs()), Accepted(task), Abs());
      return Ok(());
    }

    method Dequeue() returns (r: Option<Task>)
      requires Valid()
      modifies this
      ensures Valid()
      ensures Step(old(Abs()), if r.Some? then Served(r.value) else FoundEmpty, Abs())
      ensures r.None? <==> old(tasks) == []
      ensures r.Some? ==> r.value in old(tasks) && multiset(tasks) == multiset(old(tasks)) - multiset{r.value}
    {
      hide Beats, AgentCount, Invariant, IsNext;
      if tasks == [] {
        return None;
      }
      var best := FindBest();
      var task := tasks[best];
      tasks := SwapRemove(tasks, best);
      RecordService(task.agentId);
      DecrementAgent(task, old(multiset(tasks)));
      StepKeepsInvariant(old(Abs()), Served(task), Abs());
      return Some(task);
    }

    /** The scan of `dequeue`. */
    method FindBest() returns (best: nat)
      requires tasks != []
      ensures best < |tasks| && IsNext(lastServed, multiset(tasks), tasks[best])
    {
      hide Beats;
      best := 0;
      for index := 1 to |tasks|
        invariant best < index <= |tasks|
        invariant forall k | 0 <= k < index && tasks[k] != tasks[best] :: Beats(lastServed, tasks[best], tasks[k])
      {
        BeatsIsStrictTotalOrder(lastServed);
        if Beats(lastServed, tasks[index], tasks[best]) {
          best := index;
        }
      }
    }

    method Cancel(taskId: string) returns (found: bool)
      requires Valid()
      modifies this
      ensures Valid()
      ensures found <==> exists t :: t in old(tasks) && t.id == taskId
      ensures tasks == AfterCancel(old(tasks), taskId)
      ensures found ==> exists t :: Step(old(Abs()), Cancelled(taskId, t), Abs())
      ensures !found ==> Step(old(Abs()), NotFound(taskId), Abs())
    {
      match PositionOf(tasks, taskId) {
        case Some(pos) =>
          var task := tasks[pos];
          tasks := SwapRemove(tasks, pos);
          DecrementAgent(task, old(multiset(tasks)));
          assert Step(old(Abs()), Cancelled(taskId, task), Abs());
          StepKeepsInvariant(old(Abs()), Cancelled(taskId, task), Abs());
          return true;
        case None =>
          return false;
      }
    }

    method Len() returns (n: nat)
      requires Valid()
      ensures n == |Abs().waiting| <= config.maxCapacity
      ensures n == SumOf(agentCounts)
    {
      CountsSumToLength(agentCounts, multiset(tasks));
      n := |tasks|;
    }

    method AgentTasks(agentId: string) returns (n: nat)
      requires Valid()
      ensures n == AgentCount(multiset(tasks), agentId) <= config.maxPerAgent
    {
      n := if agentId in agentCounts then agentCounts[agentId] else 0;
    }

    method RecordService(agentId: string)
      modifies `lastServed, `nextServiceOrder
      ensures nextServiceOrder == Tick(old(nextServiceOrder))
      ensures lastServed == old(lastServed)[agentId := nextServiceOrder]
    {
      if nextServiceOrder < U64_MAX {
        nextServiceOrder := nextServiceOrder + 1;
      }
      lastServed := lastServed[agentId := nextServiceOrder];
    }

    /** Called with `task` already gone from the vector. The saturating subtraction of the source
        never saturates: the stored count is positive. */
    method DecrementAgent(task: Task, ghost before: multiset<Task>)
      requires task in before && multiset(tasks) == before - multiset{task}
      requires CountsAgree(agentCounts, before)
      modifies `agentCounts
      ensures CountsAgree(agentCounts, multiset(tasks))
    {
      forall agent ensures AgentCount(before, agent)
                        == (if task.agentId == agent then 1 else 0) + AgentCount(multiset(tasks), agent) {
        AgentCountRemove(before, task, agent);
      }
      if task.agentId in agentCounts {
        var count := agentCounts[task.agentId];
        assert count > 0;
        count := if count > 0 then count - 1 else 0;
        if count == 0 {
          agentCounts := agentCounts - {task.agentId};
        } else {
          agentCounts := agentCounts[task.agentId := count];
        }
      }
    }
  }

  // ----- the counts sum to the length

  lemma {:induction false} CountsSumToLength(counts: map<string, nat>, waiting: multiset<Task>)
    requires CountsAgree(counts, waiting)
    ensures SumOf(counts) == |waiting|
    decreases |waiting|
  {
    if waiting == multiset{} {
      assert forall agent :: AgentCount(waiting, agent) == 0;
      assert counts == map[];
    } else {
      var t :| t in waiting;
      var rest := waiting - multiset{t};
      forall agent ensures AgentCount(waiting, agent)
                        == (if t.agentId == agent then 1 else 0) + AgentCount(rest, agent) {
        AgentCountRemove(waiting, t, agent);
      }
      var n := counts[t.agentId];
      var counts' := if n == 1 then counts - {t.agentId} else counts[t.agentId := n - 1];
      CountsSumToLength(counts', rest);
      SumOfRemove(counts, t.agentId);
      if n > 1 {
        SumOfRemove(counts', t.agentId);
        assert counts' - {t.agentId} == counts - {t.agentId};
      }
    }
  }

  // ----- what the vector's order can and cannot be seen by

  lemma {:induction false} SomeVector(waiting: multiset<Task>) returns (tasks: seq<Task>)
    ensures multiset(tasks) == waiting
    decreases |waiting|
  {
    if waiting == multiset{} {
      tasks := [];
    } else {
      var t :| t in waiting;
      var rest := SomeVector(waiting - multiset{t});
      tasks := [t] + rest;
    }
  }

  /** `cancel` takes the first task with the id, so what remains depends on the scrambled vector
      unless all waiting tasks with that id are equal: exactly then it does not. */
  lemma CancelIgnoresVectorOrder(waiting: multiset<Task>, id: string)
    ensures
      (forall v, w | multiset(v) == waiting && multiset(w) == waiting ::
         multiset(AfterCancel(v, id)) == multiset(AfterCancel(w, id)))
      <==> (forall t, u | t in waiting && u in waiting && t.id == id && u.id == id :: t == u)
  {
    if t, u :| t in waiting && u in waiting && t.id == id && u.id == id && t != u {
      var v := VectorCancelling(waiting, t);
      var w := VectorCancelling(waiting, u);
      assert (waiting - multiset{t})[t] != (waiting - multiset{u})[t];
    } else {
      forall v, w | multiset(v) == waiting && multiset(w) == waiting
        ensures multiset(AfterCancel(v, id)) == multiset(AfterCancel(w, id))
      {
        CancelRemoves(v, id);
        CancelRemoves(w, id);
      }
    }
  }

  lemma VectorCancelling(waiting: multiset<Task>, t: Task) returns (v: seq<Task>)
    requires t in waiting
    ensures multiset(v) == waiting && multiset(AfterCancel(v, t.id)) == waiting - multiset{t}
  {
    var rest := SomeVector(waiting - multiset{t});
    v := [t] + rest;
    assert PositionOf(v, t.id) == Some(0);
  }

  /** `cancel` removes one task with the id, if there is one, and otherwise nothing. */
  lemma CancelRemoves(tasks: seq<Task>, id: string)
    ensures (exists t :: t in multiset(tasks) && t.id == id) ==>
      exists t ::
        t in multiset(tasks) && t.id == id && multiset(AfterCancel(tasks, id)) == multiset(tasks) - multiset{t}
    ensures (forall t :: t in multiset(tasks) ==> t.id != id) ==> AfterCancel(tasks, id) == tasks
  {
  }
}
