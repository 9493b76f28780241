/** The task queue as a transition system over multisets of waiting tasks, and what whole runs of
    it guarantee: conservation, bounded bypass and first-in-first-out inside one agent.
    The vector that stores the tasks is not visible here; module TaskQueues refines this one. */
module TaskQueueRuns {
  import opened Common
  import opened TaskOrder

  datatype Config = Config(maxCapacity: nat, maxPerAgent: nat)

  datatype QueueError = AtCapacity | AgentLimitReached

  /** `next` is the number of the latest service, a saturating 64-bit counter. */
  datatype Queue = Queue(config: Config, waiting: multiset<Task>, last: ServiceLog, next: nat)

  datatype Event =
    | Accepted(task: Task)
    | Refused(task: Task, error: QueueError)
    | Served(task: Task)
    | FoundEmpty
    | Cancelled(id: string, task: Task)
    | NotFound(id: string)

  function Fresh(config: Config): Queue {
    Queue(config, multiset{}, map[], 0)
  }

  /** `saturating_add(1)` on the service counter. */
  function Tick(n: nat): (m: nat)
    ensures n <= m
    ensures n < U64_MAX ==> n < m <= U64_MAX
  {
    if n < U64_MAX then n + 1 else n
  }

  ghost function AgentCount(waiting: multiset<Task>, agent: string): nat
    decreases |waiting|
  {
    if waiting == multiset{} then 0
    else
      var t :| t in waiting;
      (if t.agentId == agent then 1 else 0) + AgentCount(waiting - multiset{t}, agent)
  }

  /** The capacity is checked first; the agent's own limit only on a queue with room. */
  ghost predicate RefusedFor(q: Queue, t: Task, error: QueueError) {
    match error
    case AtCapacity => |q.waiting| >= q.config.maxCapacity
    case AgentLimitReached =>
      && |q.waiting| < q.config.maxCapacity
      && AgentCount(q.waiting, t.agentId) >= q.config.maxPerAgent
  }

  ghost predicate Step(q: Queue, e: Event, q': Queue) {
    match e
    case Accepted(t) =>
      && |q.waiting| < q.config.maxCapacity
      && AgentCount(q.waiting, t.agentId) < q.config.maxPerAgent
      && q' == q.(waiting := q.waiting + multiset{t})
    case Refused(t, error) =>
      RefusedFor(q, t, error) && q' == q
    case Served(t) =>
      && IsNext(q.last, q.waiting, t)
      && q' == q.(waiting := q.waiting - multiset{t},
                  last := q.last[t.agentId := Tick(q.next)],
                  next := Tick(q.next))
    case FoundEmpty => q.waiting == multiset{} && q' == q
    case Cancelled(id, t) =>
      t in q.waiting && t.id == id && q' == q.(waiting := q.waiting - multiset{t})
    case NotFound(id) => (forall t :: t in q.waiting ==> t.id != id) && q' == q
  }

  ghost predicate Run(qs: seq<Queue>, es: seq<Event>) {
    |qs| == |es| + 1 && forall i | 0 <= i < |es| :: Step(qs[i], es[i], qs[i + 1])
  }

  // ----- dequeue depends on the waiting tasks and the service history alone

  lemma {:induction false} SomeTaskIsNext(last: ServiceLog, waiting: multiset<Task>) returns (t: Task)
    requires waiting != multiset{}
    ensures IsNext(last, waiting, t)
    decreases |waiting|
  {
    var u :| u in waiting;
    var rest := waiting - multiset{u};
    if rest == multiset{} {
      assert waiting == multiset{u};
      t := u;
    } else {
      var v := SomeTaskIsNext(last, rest);
      assert forall w :: w in waiting ==> w == u || w in rest;
      BeatsIsStrictTotalOrder(last);
      t := if Beats(last, u, v) then u else v;
    }
  }

  /** Whenever something waits there is exactly one possible service and one possible successor. */
  lemma ServiceIsAFunctionOfTheMultiset(q: Queue)
    requires q.waiting != multiset{}
    ensures exists t, q' :: Step(q, Served(t), q')
    ensures forall t, q', u, q'' ::
      Step(q, Served(t), q') && Step(q, Served(u), q'') ==> t == u && q' == q''
  {
    var t := SomeTaskIsNext(q.last, q.waiting);
    var q' := q.(waiting := q.waiting - multiset{t},
                 last := q.last[t.agentId := Tick(q.next)],
                 next := Tick(q.next));
    assert Step(q, Served(t), q');
    forall t, q', u, q'' | Step(q, Served(t), q') && Step(q, Served(u), q'')
      ensures t == u && q' == q''
    {
      NextIsUnique(q.last, q.waiting, t, u);
    }
  }

  // ----- who is served before whom

  /** Neither agent was ever served, or both were last served by the same service. */
  predicate SameStanding(last: ServiceLog, a: string, b: string) {
    if a in last && b in last then last[a] == last[b] else a !in last && b !in last
  }

  predicate NotAfter(a: string, b: string) {
    a == b || StringLess(a, b)
  }

  /** What a service says about every other waiting task: it has no higher priority; at the same
      priority its agent was not passed over for one served more recently; agents of the same standing
      are served by arrival, and only tasks that arrived together by agent and then by id. */
  lemma ServedFirst(q: Queue, t: Task, q': Queue, u: Task)
    requires Step(q, Served(t), q') && u in q.waiting
    ensures u.priority <= t.priority
    ensures u.priority == t.priority && t.agentId in q.last ==>
      u.agentId in q.last && q.last[t.agentId] <= q.last[u.agentId]
    ensures u.priority == t.priority && SameStanding(q.last, t.agentId, u.agentId) ==> t.enqueuedAt <= u.enqueuedAt
    ensures u.priority == t.priority && SameStanding(q.last, t.agentId, u.agentId) && t.enqueuedAt == u.enqueuedAt ==>
      NotAfter(t.agentId, u.agentId) && (t.agentId == u.agentId ==> NotAfter(t.id, u.id))
  {
  }

  // ----- agent counts

  lemma {:induction false} AgentCountRemove(waiting: multiset<Task>, t: Task, agent: string)
    requires t in waiting
    ensures AgentCount(waiting, agent)
         == (if t.agentId == agent then 1 else 0) + AgentCount(waiting - multiset{t}, agent)
    decreases |waiting|
  {
    var u :| u in waiting
      && AgentCount(waiting, agent)
      == (if u.agentId == agent then 1 else 0) + AgentCount(waiting - multiset{u}, agent);
    if u != t {
      var both := waiting - multiset{t} - multiset{u};
      AgentCountRemove(waiting - multiset{u}, t, agent);
      AgentCountRemove(waiting - multiset{t}, u, agent);
      assert waiting - multiset{u} - multiset{t} == both;
    }
  }

  lemma AgentCountAdd(waiting: multiset<Task>, t: Task, agent: string)
    ensures AgentCount(waiting + multiset{t}, agent)
         == (if t.agentId == agent then 1 else 0) + AgentCount(waiting, agent)
  {
    AgentCountRemove(waiting + multiset{t}, t, agent);
    assert waiting + multiset{t} - multiset{t} == waiting;
  }

  lemma {:induction false} AgentCountPositive(waiting: multiset<Task>, agent: string)
    ensures AgentCount(waiting, agent) > 0 <==> exists t :: t in waiting && t.agentId == agent
    decreases |waiting|
  {
    if waiting == multiset{} {
    } else {
      var t :| t in waiting;
      AgentCountRemove(waiting, t, agent);
      AgentCountPositive(waiting - multiset{t}, agent);
      if t.agentId != agent {
        assert forall u :: u in waiting && u != t ==> u in waiting - multiset{t};
      }
    }
  }

  // ----- invariant of every reachable queue

  ghost predicate Invariant(q: Queue) {
    && |q.waiting| <= q.config.maxCapacity
    && (forall agent :: AgentCount(q.waiting, agent) <= q.config.maxPerAgent)
    && (forall agent | agent in q.last :: q.last[agent] <= q.next)
    && q.next <= U64_MAX
  }

  lemma StepKeepsInvariant(q: Queue, e: Event, q': Queue)
    requires Invariant(q) && Step(q, e, q')
    ensures Invariant(q') && q'.config == q.config && q.next <= q'.next
  {
    if e.Accepted? {
      forall agent ensures AgentCount(q'.waiting, agent) <= q.config.maxPerAgent {
        AgentCountAdd(q.waiting, e.task, agent);
      }
    } else if e.Served? || e.Cancelled? {
      forall agent ensures AgentCount(q'.waiting, agent) <= q.config.maxPerAgent {
        AgentCountRemove(q.waiting, e.task, agent);
      }
    }
  }

  /** Capacity and the per-agent limit hold in every state of every run from a fresh queue. */
  lemma {:induction false} RunKeepsInvariant(qs: seq<Queue>, es: seq<Event>, i: nat)
    requires Run(qs, es) && Invariant(qs[0]) && i <= |es|
    ensures Invariant(qs[i]) && qs[i].config == qs[0].config && qs[0].next <= qs[i].next
  {
    if i == 0 {
    } else {
      RunKeepsInvariant(qs, es, i - 1);
      StepKeepsInvariant(qs[i - 1], es[i - 1], qs[i]);
    }
  }

  lemma FreshQueueInvariant(config: Config)
    ensures Invariant(Fresh(config))
  {
  }

  // ----- conservation

  ghost function In(e: Event): multiset<Task> {
    if e.Accepted? then multiset{e.task} else multiset{}
  }

  ghost function Out(e: Event): multiset<Task> {
    if e.Served? || e.Cancelled? then multiset{e.task} else multiset{}
  }

  ghost function TasksIn(es: seq<Event>): multiset<Task> {
    if es == [] then multiset{} else In(es[0]) + TasksIn(es[1..])
  }

  ghost function TasksOut(es: seq<Event>): multiset<Task> {
    if es == [] then multiset{} else Out(es[0]) + TasksOut(es[1..])
  }

  lemma StepConserves(q: Queue, e: Event, q': Queue)
    requires Step(q, e, q')
    ensures q.waiting + In(e) == Out(e) + q'.waiting
  {
  }

  /** No task is lost, duplicated or altered: initial tasks and accepted ones are, as multisets,
      exactly the served, the cancelled and the still waiting ones. */
  lemma Conservation(qs: seq<Queue>, es: seq<Event>)
    requires Run(qs, es)
    ensures qs[0].waiting + TasksIn(es) == TasksOut(es) + qs[|es|].waiting
  {
    forall i | 0 <= i < |es| ensures qs[i].waiting + In(es[i]) == Out(es[i]) + qs[i + 1].waiting {
      StepConserves(qs[i], es[i], qs[i + 1]);
    }
    Telescope(seq(|qs|, i requires 0 <= i < |qs| => qs[i].waiting), es);
  }

  lemma {:induction false} Telescope(ws: seq<multiset<Task>>, es: seq<Event>)
    requires |ws| == |es| + 1
    requires forall i | 0 <= i < |es| :: ws[i] + In(es[i]) == Out(es[i]) + ws[i + 1]
    ensures ws[0] + TasksIn(es) == TasksOut(es) + ws[|es|]
  {
    if es == [] {
    } else {
      forall i | 0 <= i < |es| - 1 ensures ws[1..][i] + In(es[1..][i]) == Out(es[1..][i]) + ws[1..][i + 1] {
        assert ws[i + 1] + In(es[i + 1]) == Out(es[i + 1]) + ws[i + 2];
      }
      Telescope(ws[1..], es[1..]);
      assert ws[0] + (In(es[0]) + TasksIn(es[1..])) == (ws[0] + In(es[0])) + TasksIn(es[1..]);
      assert Out(es[0]) + (ws[1] + TasksIn(es[1..])) == TasksOut(es) + ws[|es|];
    }
  }

  // ----- bounded bypass

  /** In each of the first `n` states a task of `agent` with priority `p` waits. */
  ghost predicate KeepsWaiting(qs: seq<Queue>, n: nat, agent: string, p: Priority)
    requires n <= |qs|
  {
    forall i | 0 <= i < n :: exists t :: t in qs[i].waiting && t.agentId == agent && t.priority == p
  }

  ghost predicate NeverServed(es: seq<Event>, agent: string) {
    forall i | 0 <= i < |es| :: es[i].Served? ==> es[i].task.agentId != agent
  }

  /** In this run `agent` waits at priority `p` all the time and is never served. */
  ghost predicate PassedOver(qs: seq<Queue>, es: seq<Event>, agent: string, p: Priority) {
    Run(qs, es) && KeepsWaiting(qs, |es|, agent, p) && NeverServed(es, agent)
  }

  /** The bound on such a run: only tasks of priority at least `p` are served, and an agent served
      once is not served again at priority `p`, however many tasks it adds. */
  ghost predicate BypassIsBounded(es: seq<Event>, p: Priority) {
    && (forall i | 0 <= i < |es| :: es[i].Served? ==> es[i].task.priority >= p)
    && (forall i, j | 0 <= i < j < |es| ::
          es[i].Served? && es[j].Served? && es[i].task.agentId == es[j].task.agentId
          ==> es[j].task.priority > p)
  }

  /** The saturating service counter can still tell later services from this agent's last one. */
  predicate BelowCeiling(last: ServiceLog, agent: string) {
    agent in last ==> last[agent] < U64_MAX
  }

  /** While `agent` is passed over, its own fairness record stands still. */
  lemma {:induction false} RecordStandsStill(qs: seq<Queue>, es: seq<Event>, agent: string, i: nat)
    requires Run(qs, es) && NeverServed(es, agent) && i <= |es|
    ensures agent in qs[i].last <==> agent in qs[0].last
    ensures agent in qs[0].last ==> qs[i].last[agent] == qs[0].last[agent]
  {
    if i == 0 {
    } else {
      RecordStandsStill(qs, es, agent, i - 1);
      assert Step(qs[i - 1], es[i - 1], qs[i]);
    }
  }

  /** From step `i` on, an agent served at step `i` is recorded at the first service or later. */
  lemma {:induction false} ServedAgentIsRecent(qs: seq<Queue>, es: seq<Event>, i: nat, j: nat)
    requires Run(qs, es) && Invariant(qs[0]) && i < j <= |es|
    requires es[i].Served?
    ensures es[i].task.agentId in qs[j].last
    ensures qs[j].last[es[i].task.agentId] >= Tick(qs[0].next)
  {
    var k := j - 1;
    assert Step(qs[k], es[k], qs[j]);
    RunKeepsInvariant(qs, es, k);
    if i < k { ServedAgentIsRecent(qs, es, i, k); }
  }

  /** Bounded bypass, in every run that starts with the agent's record below the ceiling. */
  lemma BoundedBypass(qs: seq<Queue>, es: seq<Event>, agent: string, p: Priority)
    requires PassedOver(qs, es, agent, p) && Invariant(qs[0]) && BelowCeiling(qs[0].last, agent)
    ensures BypassIsBounded(es, p)
  {
    forall j | 0 <= j < |es| && es[j].Served? ensures es[j].task.priority >= p {
      var t := WaitingTask(qs, es, agent, p, j);
    }
    forall i, j | 0 <= i < j < |es| && es[i].Served? && es[j].Served?
                  && es[i].task.agentId == es[j].task.agentId
      ensures es[j].task.priority > p
    {
      var t := WaitingTask(qs, es, agent, p, j);
      ServedAgentIsRecent(qs, es, i, j);
      RecordStandsStill(qs, es, agent, j);
    }
  }

  lemma WaitingTask(qs: seq<Queue>, es: seq<Event>, agent: string, p: Priority, j: nat) returns (t: Task)
    requires PassedOver(qs, es, agent, p) && j < |es| && es[j].Served?
    ensures t in qs[j].waiting && t.agentId == agent && t.priority == p
    ensures Beats(qs[j].last, es[j].task, t)
  {
    assert Step(qs[j], es[j], qs[j + 1]);
    t :| t in qs[j].waiting && t.agentId == agent && t.priority == p;
  }

  ghost predicate StartsWith(qs: seq<Queue>, config: Config, last: ServiceLog, next: nat) {
    qs != [] && Invariant(qs[0]) && qs[0].config == config && qs[0].last == last && qs[0].next == next
  }

  /** The agents of the services at priority `p`, in order. */
  ghost function AgentsServedAt(es: seq<Event>, p: Priority): (agents: seq<string>)
    ensures forall a :: a in agents ==>
      exists i :: 0 <= i < |es| && es[i].Served? && es[i].task.agentId == a && es[i].task.priority == p
  {
    if es == [] then []
    else
      var n := |es| - 1;
      var before := AgentsServedAt(es[..n], p);
      if es[n].Served? && es[n].task.priority == p then before + [es[n].task.agentId] else before
  }

  /** `n` rounds of serving a task and accepting it anew. */
  function Rounds(n: nat, t: Task): (es: seq<Event>)
    ensures |es| == 2 * n
    ensures forall i | 0 <= i < 2 * n :: es[i] == if i % 2 == 0 then Served(t) else Accepted(t)
  {
    if n == 0 then [] else Rounds(n - 1, t) + [Served(t), Accepted(t)]
  }

  /** Tasks of two agents at one priority, the first with the older stamp. */
  ghost predicate Rivals(t: Task, b: Task) {
    t.agentId != b.agentId && t.priority == b.priority && t.enqueuedAt < b.enqueuedAt
  }

  ghost predicate AtCeiling(q: Queue, agent: string) {
    q.next == U64_MAX && agent in q.last && q.last[agent] == U64_MAX && forall a | a in q.last :: q.last[a] <= U64_MAX
  }

  /** With room for two tasks, an agent last served at the ceiling is bypassed any number of times:
      for every `n` there is a run in which it waits and another agent is served `n` times at `p`. */
  lemma {:induction false} BypassIsUnbounded(q: Queue, t: Task, b: Task, n: nat) returns (qs: seq<Queue>)
    requires AtCeiling(q, b.agentId) && q.waiting == multiset{t, b} && Rivals(t, b)
    requires q.config.maxCapacity >= 2 && q.config.maxPerAgent >= 1
    ensures PassedOver(qs, Rounds(n, t), b.agentId, b.priority) && |qs| == 2 * n + 1
    ensures qs[0] == q && AtCeiling(qs[2 * n], b.agentId)
    ensures qs[2 * n].waiting == q.waiting && qs[2 * n].config == q.config
    ensures |AgentsServedAt(Rounds(n, t), b.priority)| == n
  {
    RoundsServe(n, t);
    assert t.priority == b.priority;
    hide Rounds, AgentsServedAt, AtCeiling, Rivals, Step;
    if n == 0 {
      assert b in q.waiting;
      qs := [q];
    } else {
      hide PassedOver;
      var before := BypassIsUnbounded(q, t, b, n - 1);
      var q0 := before[2 * n - 2];
      var q1 := q0.(waiting := multiset{b}, last := q0.last[t.agentId := U64_MAX]);
      var q2 := q1.(waiting := multiset{t, b});
      OneRound(q0, q1, q2, t, b);
      qs := before + [q1, q2];
      RoundAdded(before, qs, n, t, b);
    }
  }

  lemma {:induction false} RoundsServe(n: nat, t: Task)
    ensures |AgentsServedAt(Rounds(n, t), t.priority)| == n
  {
    if n == 0 {
    } else {
      RoundsServe(n - 1, t);
      var es := Rounds(n, t);
      assert es[..2 * n - 1][..2 * n - 2] == Rounds(n - 1, t);
      assert AgentsServedAt(es, t.priority) == AgentsServedAt(es[..2 * n - 1], t.priority);
    }
  }

  lemma OneRound(q0: Queue, q1: Queue, q2: Queue, t: Task, b: Task)
    requires AtCeiling(q0, b.agentId) && q0.waiting == multiset{t, b} && Rivals(t, b)
    requires q0.config.maxCapacity >= 2 && q0.config.maxPerAgent >= 1
    requires q1 == q0.(waiting := multiset{b}, last := q0.last[t.agentId := U64_MAX])
    requires q2 == q1.(waiting := multiset{t, b})
    ensures Step(q0, Served(t), q1) && Step(q1, Accepted(t), q2)
    ensures AtCeiling(q1, b.agentId) && AtCeiling(q2, b.agentId)
  {
    assert multiset{t, b} - multiset{t} == multiset{b} && multiset{b} + multiset{t} == multiset{t, b};
    assert AgentCount(multiset{b}, t.agentId) == 0 by { AgentCountPositive(multiset{b}, t.agentId); }
  }

  lemma RoundAdded(before: seq<Queue>, qs: seq<Queue>, n: nat, t: Task, b: Task)
    requires n > 0 && PassedOver(before, Rounds(n - 1, t), b.agentId, b.priority) && Rivals(t, b)
    requires |qs| == 2 * n + 1 && qs[..2 * n - 1] == before
    requires Step(qs[2 * n - 2], Served(t), qs[2 * n - 1]) && Step(qs[2 * n - 1], Accepted(t), qs[2 * n])
    requires b in qs[2 * n - 2].waiting && b in qs[2 * n - 1].waiting
    ensures PassedOver(qs, Rounds(n, t), b.agentId, b.priority)
  {
    hide Step;
    var es := Rounds(n, t);
    assert es[..2 * n - 2] == Rounds(n - 1, t);
    forall i | 0 <= i < 2 * n ensures Step(qs[i], es[i], qs[i + 1]) {
      if i < 2 * n - 2 { assert qs[i] == before[i] && qs[i + 1] == before[i + 1] && es[i] == es[..2 * n - 2][i]; }
    }
    forall i | 0 <= i < 2 * n
      ensures exists u :: u in qs[i].waiting && u.agentId == b.agentId && u.priority == b.priority
    {
      if i < 2 * n - 2 { assert qs[i] == before[i]; }
    }
  }

  /** Exactly when bypass is bounded: a service log guarantees it for an agent if and only if the
      agent was never served, or was last served below the ceiling of the 64-bit counter, or the
      queue has no room for a task beside the agent's own. */
  lemma BypassIsBoundedExactly(config: Config, last: ServiceLog, next: nat, agent: string, p: Priority)
    requires next <= U64_MAX && forall a | a in last :: last[a] <= next
    ensures BelowCeiling(last, agent) || config.maxCapacity < 2 || config.maxPerAgent < 1 <==>
      forall qs, es | PassedOver(qs, es, agent, p) && StartsWith(qs, config, last, next) :: BypassIsBounded(es, p)
  {
    if BelowCeiling(last, agent) || config.maxCapacity < 2 || config.maxPerAgent < 1 {
      forall qs, es: seq<Event> | PassedOver(qs, es, agent, p) && StartsWith(qs, config, last, next)
        ensures BypassIsBounded(es, p)
      {
        if BelowCeiling(last, agent) {
          BoundedBypass(qs, es, agent, p);
        } else {
          NoRoomNoService(qs, es, agent, p);
        }
      }
    } else {
      var t, b := Task("", agent + "'", p, 0), Task("", agent, p, 1);
      var q := Queue(config, multiset{t, b}, last, next);
      var qs := BypassIsUnbounded(q, t, b, 2);
      OneTaskEach(t, b, config);
      var es := Rounds(2, t);
      assert es[0].Served? && es[2].Served? && es[0].task.agentId == es[2].task.agentId;
      assert !BypassIsBounded(es, p);
    }
  }

  lemma OneTaskEach(t: Task, b: Task, config: Config)
    requires t.agentId != b.agentId && config.maxPerAgent >= 1
    ensures forall a :: AgentCount(multiset{t, b}, a) <= config.maxPerAgent
  {
    forall a ensures AgentCount(multiset{t, b}, a) <= 1 {
      AgentCountAdd(multiset{}, t, a);
      AgentCountAdd(multiset{t}, b, a);
      assert multiset{} + multiset{t} == multiset{t} && multiset{t} + multiset{b} == multiset{t, b};
    }
  }

  /** Another agent can be served only if the queue has room for a task beside the waiting one. */
  lemma ServiceNeedsRoom(qs: seq<Queue>, es: seq<Event>, agent: string, p: Priority, i: nat)
    requires PassedOver(qs, es, agent, p) && Invariant(qs[0]) && i < |es| && es[i].Served?
    ensures qs[0].config.maxCapacity >= 2 && qs[0].config.maxPerAgent >= 1
  {
    RunKeepsInvariant(qs, es, i);
    var b :| b in qs[i].waiting && b.agentId == agent && b.priority == p;
    AgentCountPositive(qs[i].waiting, agent);
    assert Step(qs[i], es[i], qs[i + 1]);
    SmallerIsSmaller(multiset{b, es[i].task}, qs[i].waiting);
  }

  lemma NoRoomNoService(qs: seq<Queue>, es: seq<Event>, agent: string, p: Priority)
    requires PassedOver(qs, es, agent, p) && Invariant(qs[0])
    ensures
      || (qs[0].config.maxCapacity >= 2 && qs[0].config.maxPerAgent >= 1)
      || forall i | 0 <= i < |es| :: !es[i].Served?
  {
    if i: nat :| i < |es| && es[i].Served? {
      ServiceNeedsRoom(qs, es, agent, p, i);
    }
  }

  lemma SmallerIsSmaller(a: multiset<Task>, b: multiset<Task>)
    requires a <= b
    ensures |a| <= |b|
  {
    assert b == a + (b - a);
  }

  /** Hence `agent` waits for at most one service at priority `p` per other agent that has tasks of
      that priority, whatever the number of those tasks. */
  lemma BypassCount(qs: seq<Queue>, es: seq<Event>, agent: string, p: Priority, others: set<string>)
    requires PassedOver(qs, es, agent, p) && Invariant(qs[0]) && BelowCeiling(qs[0].last, agent)
    requires forall i, t | 0 <= i < |es| && t in qs[i].waiting && t.priority == p && t.agentId != agent ::
      t.agentId in others
    ensures |AgentsServedAt(es, p)| <= |others|
  {
    forall a | a in AgentsServedAt(es, p) ensures a in others {
      var i :| 0 <= i < |es| && es[i].Served? && es[i].task.agentId == a && es[i].task.priority == p;
      assert Step(qs[i], es[i], qs[i + 1]);
    }
    AgentsAreDistinct(qs, es, agent, p);
    DistinctFits(AgentsServedAt(es, p), others);
  }

  lemma {:induction false} AgentsAreDistinct(qs: seq<Queue>, es: seq<Event>, agent: string, p: Priority)
    requires PassedOver(qs, es, agent, p) && Invariant(qs[0]) && BelowCeiling(qs[0].last, agent)
    ensures Distinct(AgentsServedAt(es, p))
  {
    if es == [] {
    } else {
      var n := |es| - 1;
      AgentsAreDistinct(qs[..n + 1], es[..n], agent, p);
      if es[n].Served? && es[n].task.priority == p && es[n].task.agentId in AgentsServedAt(es[..n], p) {
        var i :| 0 <= i < n && es[..n][i].Served? && es[..n][i].task.agentId == es[n].task.agentId;
        assert es[i].Served? && es[i].task.agentId == es[n].task.agentId;
        BoundedBypass(qs, es, agent, p);
      }
    }
  }

  lemma {:induction false} DistinctFits<T(!new)>(s: seq<T>, bound: set<T>)
    requires Distinct(s) && forall x :: x in s ==> x in bound
    ensures |s| <= |bound|
  {
    if s == [] {
    } else {
      forall x | x in s[1..] ensures x in bound - {s[0]} {
        var k :| 0 <= k < |s[1..]| && s[1..][k] == x;
        assert x == s[k + 1];
      }
      DistinctFits(s[1..], bound - {s[0]});
    }
  }

  // ----- first in, first out

  /** Tasks are stamped by a clock that never runs backwards: a task is at least as late as every
      task that waited before it was accepted. */
  ghost predicate StampedInOrder(qs: seq<Queue>, es: seq<Event>)
    requires |qs| == |es| + 1
  {
    forall k, i, t | 0 <= i <= k < |es| && es[k].Accepted? && t in qs[i].waiting ::
      t.enqueuedAt <= es[k].task.enqueuedAt
  }

  ghost predicate SameLane(t: Task, u: Task) {
    t.agentId == u.agentId && t.priority == u.priority
  }

  /** After a service, everything of that agent and priority still to come is at least as late. */
  lemma {:induction false} LaneIsLater(qs: seq<Queue>, es: seq<Event>, i: nat, k: nat)
    requires Run(qs, es) && StampedInOrder(qs, es)
    requires i < k <= |es| && es[i].Served?
    ensures forall u :: u in qs[k].waiting && SameLane(u, es[i].task) ==> es[i].task.enqueuedAt <= u.enqueuedAt
  {
    hide Step, SameLane;
    var t := es[i].task;
    assert Step(qs[i], es[i], qs[i + 1]);
    ServedIsFirstInLane(qs[i], t, qs[i + 1]);
    if i + 1 < k {
      LaneIsLater(qs, es, i, k - 1);
      assert Step(qs[k - 1], es[k - 1], qs[k]);
      LaterWaits(qs[k - 1], es[k - 1], qs[k]);
      assert es[k - 1].Accepted? ==> t.enqueuedAt <= es[k - 1].task.enqueuedAt;
    }
  }

  lemma ServedIsFirstInLane(q: Queue, t: Task, q': Queue)
    requires Step(q, Served(t), q')
    ensures t in q.waiting
    ensures forall u :: u in q'.waiting && SameLane(u, t) ==> t.enqueuedAt <= u.enqueuedAt
  {
  }

  lemma LaterWaits(q: Queue, e: Event, q': Queue)
    requires Step(q, e, q')
    ensures forall u :: u in q'.waiting ==> u in q.waiting || (e.Accepted? && u == e.task)
  {
  }

  /** Over any run, one agent's tasks of one priority leave in the order of their time stamps. */
  lemma FifoWithinAgentAndPriority(qs: seq<Queue>, es: seq<Event>, i: nat, j: nat)
    requires Run(qs, es) && StampedInOrder(qs, es)
    requires i < j < |es| && es[i].Served? && es[j].Served? && SameLane(es[i].task, es[j].task)
    ensures es[i].task.enqueuedAt <= es[j].task.enqueuedAt
  {
    assert Step(qs[j], es[j], qs[j + 1]);
    LaneIsLater(qs, es, i, j);
  }

  /** After the service of an agent never served before, the tasks of that priority whose agents had not
      been served by then either are at least as late. */
  lemma {:induction false} NewcomersAreLater(qs: seq<Queue>, es: seq<Event>, i: nat, k: nat)
    requires Run(qs, es) && StampedInOrder(qs, es)
    requires i < k <= |es| && es[i].Served? && es[i].task.agentId !in qs[i].last
    ensures forall u | u in qs[k].waiting && u.priority == es[i].task.priority && u.agentId !in qs[i].last ::
      es[i].task.enqueuedAt <= u.enqueuedAt
  {
    hide Step;
    var t := es[i].task;
    assert Step(qs[i], es[i], qs[i + 1]);
    ServedIsFirstInLane(qs[i], t, qs[i + 1]);
    if i + 1 < k {
      NewcomersAreLater(qs, es, i, k - 1);
      assert Step(qs[k - 1], es[k - 1], qs[k]);
      LaterWaits(qs[k - 1], es[k - 1], qs[k]);
      assert es[k - 1].Accepted? ==> t.enqueuedAt <= es[k - 1].task.enqueuedAt;
    } else {
      LaterWaits(qs[i], es[i], qs[k]);
      forall u | u in qs[k].waiting && u.priority == t.priority && u.agentId !in qs[i].last
        ensures t.enqueuedAt <= u.enqueuedAt
      {
        ServedFirst(qs[i], t, qs[k], u);
      }
    }
  }

  /** Over any run, the first services of different agents at one priority come in the order in which
      the tasks arrived, whatever the agents are called. */
  lemma NewcomersLeaveByArrival(qs: seq<Queue>, es: seq<Event>, i: nat, j: nat)
    requires Run(qs, es) && StampedInOrder(qs, es)
    requires i < j < |es| && es[i].Served? && es[j].Served? && es[i].task.priority == es[j].task.priority
    requires es[i].task.agentId !in qs[i].last && es[j].task.agentId !in qs[j].last
    ensures es[i].task.enqueuedAt <= es[j].task.enqueuedAt
  {
    LogGrows(qs, es, i, j);
    NewcomersAreLater(qs, es, i, j);
    assert Step(qs[j], es[j], qs[j + 1]);
  }

  lemma {:induction false} LogGrows(qs: seq<Queue>, es: seq<Event>, i: nat, j: nat)
    requires Run(qs, es) && i <= j <= |es|
    ensures forall a | a in qs[i].last :: a in qs[j].last
  {
    if i == j {
    } else {
      LogGrows(qs, es, i, j - 1);
      assert Step(qs[j - 1], es[j - 1], qs[j]);
    }
  }
}
