/** The turn queue as a transition system. Its steps are the regions under the mutex,
    the calls between them, the sends and receives on the result channels, and the
    contexts that may be cancelled at any moment. */
module TurnQueueModel {
  import opened Common

  datatype AgentId = AgentId(name: string)
  type JobId = nat

  /** What a result channel can carry. */
  datatype Outcome = Succeeded | Failed(code: int) | Panicked | ContextError

  // ---------------------------------------------------------------------------
  // One agent's queue under the mutex

  /** The waiting jobs of an agent and whether a worker serves them. */
  datatype Turns<T> = Turns(jobs: seq<T>, running: bool)

  /** Appending a job; the second component tells the caller to start a worker. */
  function Appended<T>(q: Turns<T>, job: T): (Turns<T>, bool) {
    (Turns(q.jobs + [job], true), !q.running)
  }

  /** A worker asks for work: the first job, or none and the worker retires. */
  function Taken<T>(q: Turns<T>): (Turns<T>, Option<T>) {
    if q.jobs == [] then (q.(running := false), None) else (q.(jobs := q.jobs[1..]), Some(q.jobs[0]))
  }

  /** The list without the first occurrence of a job. */
  function Without<T(==)>(jobs: seq<T>, job: T): seq<T> {
    if jobs == [] then []
    else if jobs[0] == job then jobs[1..]
    else [jobs[0]] + Without(jobs[1..], job)
  }

  // ---------------------------------------------------------------------------
  // States

  /** Where a worker is: about to be scheduled, asking for work, holding a popped job,
      inside the callback, or about to send the result. */
  datatype Worker = Spawning | AtLoop | Holding(job: JobId) | Running(job: JobId) | Finishing(job: JobId, outcome: Outcome)

  datatype Agent = Agent(queue: Turns<JobId>, workers: seq<Worker>, submitted: seq<JobId>, started: seq<JobId>)

  /** The caller of Enqueue: in its select, on its way to cancel, in its last receive,
      or gone with a result. A caller of Submit only receives. */
  datatype Caller = Waiting | Cancelling | Draining | Left | Detached

  datatype Fate = Queued | Popped | Skipped | Started | Removed

  /** A job with its context, its result channel of capacity one and, for the record,
      what became of it and every value sent to the channel. */
  datatype Job = Job(agent: AgentId, ctxDone: bool, channel: Option<Outcome>, caller: Caller,
                     fate: Fate, outcome: Option<Outcome>, sent: seq<Outcome>, dropped: seq<Outcome>, received: seq<Outcome>)

  datatype State = State(agents: map<AgentId, Agent>, jobs: map<JobId, Job>)

  function Initial(): State {
    State(map[], map[])
  }

  /** The non-blocking send of finish. */
  function Finish(job: Job, outcome: Outcome): Job {
    if job.channel.None? then job.(channel := Some(outcome), sent := job.sent + [outcome])
    else job.(dropped := job.dropped + [outcome])
  }

  function Receive(job: Job): Job
    requires job.channel.Some?
  {
    job.(channel := None, received := job.received + [job.channel.value])
  }

  // ---------------------------------------------------------------------------
  // Steps

  datatype Step =
    | Submit(agent: AgentId, job: JobId, detached: bool)
    | Spawn(agent: AgentId, worker: nat)
    | Take(agent: AgentId, worker: nat)
    | Check(agent: AgentId, worker: nat)
    | Return(agent: AgentId, worker: nat, outcome: Outcome)
    | Send(agent: AgentId, worker: nat)
    | CancelContext(job: JobId)
    | SeeDone(job: JobId)
    | CancelPending(job: JobId)
    | GetResult(job: JobId)

  function EmptyAgent(): Agent {
    Agent(Turns([], false), [], [], [])
  }

  function AgentOf(s: State, a: AgentId): Agent {
    if a in s.agents then s.agents[a] else EmptyAgent()
  }

  predicate HasWorker(s: State, a: AgentId, w: nat) {
    a in s.agents && w < |s.agents[a].workers|
  }

  predicate Enabled(s: State, step: Step) {
    match step
    case Submit(a, j, _) => j !in s.jobs
    case Spawn(a, w) => HasWorker(s, a, w) && s.agents[a].workers[w].Spawning?
    case Take(a, w) => HasWorker(s, a, w) && s.agents[a].workers[w].AtLoop?
    case Check(a, w) => HasWorker(s, a, w) && s.agents[a].workers[w].Holding? && s.agents[a].workers[w].job in s.jobs
    case Return(a, w, outcome) =>
      HasWorker(s, a, w) && s.agents[a].workers[w].Running? && s.agents[a].workers[w].job in s.jobs && !outcome.ContextError?
    case Send(a, w) => HasWorker(s, a, w) && s.agents[a].workers[w].Finishing? && s.agents[a].workers[w].job in s.jobs
    case CancelContext(j) => j in s.jobs
    case SeeDone(j) => j in s.jobs && s.jobs[j].caller.Waiting? && s.jobs[j].ctxDone
    case CancelPending(j) => j in s.jobs && s.jobs[j].caller.Cancelling?
    case GetResult(j) =>
      j in s.jobs && s.jobs[j].channel.Some?
      && (s.jobs[j].caller.Waiting? || s.jobs[j].caller.Draining? || s.jobs[j].caller.Detached?)
  }

  /** The region under the mutex in enqueue, and the worker it may start. */
  function Submitted(agent: Agent, j: JobId): Agent {
    var (queue, start) := Appended(agent.queue, j);
    Agent(queue, if start then agent.workers + [Spawning] else agent.workers, agent.submitted + [j], agent.started)
  }

  function NewJob(a: AgentId, detached: bool): Job {
    Job(a, false, None, if detached then Detached else Waiting, Queued, None, [], [], [])
  }

  function WithWorker(agent: Agent, w: nat, worker: Worker): Agent
    requires w < |agent.workers|
  {
    agent.(workers := agent.workers[w := worker])
  }

  /** A worker that finds no job leaves. */
  function Retired(agent: Agent, w: nat): Agent
    requires w < |agent.workers|
  {
    agent.(queue := Taken(agent.queue).0, workers := agent.workers[..w] + agent.workers[w + 1..])
  }

  /** A worker that finds a job holds it. */
  function PoppedBy(agent: Agent, w: nat): Agent
    requires w < |agent.workers| && agent.queue.jobs != []
  {
    WithWorker(agent, w, Holding(agent.queue.jobs[0])).(queue := Taken(agent.queue).0)
  }

  function Apply(s: State, step: Step): State
    requires Enabled(s, step)
  {
    match step
    case Submit(a, j, detached) =>
      State(s.agents[a := Submitted(AgentOf(s, a), j)], s.jobs[j := NewJob(a, detached)])
    case Spawn(a, w) => s.(agents := s.agents[a := WithWorker(s.agents[a], w, AtLoop)])
    case Take(a, w) =>
      var agent := s.agents[a];
      var (_, next) := Taken(agent.queue);
      if next.None? then
        s.(agents := s.agents[a := Retired(agent, w)])
      else
        var j := next.value;
        State(s.agents[a := PoppedBy(agent, w)],
              if j in s.jobs then s.jobs[j := s.jobs[j].(fate := Popped)] else s.jobs)
    case Check(a, w) =>
      var agent := s.agents[a];
      var j := agent.workers[w].job;
      if s.jobs[j].ctxDone then
        State(s.agents[a := WithWorker(agent, w, Finishing(j, ContextError))], s.jobs[j := s.jobs[j].(fate := Skipped)])
      else
        State(s.agents[a := WithWorker(agent, w, Running(j)).(started := agent.started + [j])],
              s.jobs[j := s.jobs[j].(fate := Started)])
    case Return(a, w, outcome) =>
      var agent := s.agents[a];
      var j := agent.workers[w].job;
      State(s.agents[a := WithWorker(agent, w, Finishing(j, outcome))], s.jobs[j := s.jobs[j].(outcome := Some(outcome))])
    case Send(a, w) =>
      var agent := s.agents[a];
      var j := agent.workers[w].job;
      State(s.agents[a := WithWorker(agent, w, AtLoop)], s.jobs[j := Finish(s.jobs[j], agent.workers[w].outcome)])
    case CancelContext(j) => s.(jobs := s.jobs[j := s.jobs[j].(ctxDone := true)])
    case SeeDone(j) => s.(jobs := s.jobs[j := s.jobs[j].(caller := Cancelling)])
    case CancelPending(j) =>
      var job := s.jobs[j].(caller := Draining);
      var a := job.agent;
      if a in s.agents && j in s.agents[a].queue.jobs then
        var agent := s.agents[a];
        State(s.agents[a := agent.(queue := agent.queue.(jobs := Without(agent.queue.jobs, j)))],
              s.jobs[j := Finish(job.(fate := Removed), ContextError)])
      else s.(jobs := s.jobs[j := job])
    case GetResult(j) =>
      var job := s.jobs[j];
      s.(jobs := s.jobs[j := Receive(job).(caller := if job.caller.Detached? then Detached else Left)])
  }

  // ---------------------------------------------------------------------------
  // Runs

  datatype Run = Run(states: seq<State>, steps: seq<Step>)

  /** A finite run from the empty queue. */
  ghost predicate IsRun(run: Run) {
    && |run.states| == |run.steps| + 1
    && run.states[0] == Initial()
    && forall k :: 0 <= k < |run.steps| ==> Enabled(run.states[k], run.steps[k])
                                            && run.states[k + 1] == Apply(run.states[k], run.steps[k])
  }

  // ---------------------------------------------------------------------------
  // The invariant

  predicate Survives(job: Job) {
    !job.fate.Skipped? && !job.fate.Removed?
  }

  /** The jobs of a list that were not cancelled before they could start, in order. */
  function Survivors(jobs: map<JobId, Job>, list: seq<JobId>): seq<JobId> {
    if list == [] then []
    else
      var last := list[|list| - 1];
      Survivors(jobs, list[..|list| - 1]) + (if last in jobs && Survives(jobs[last]) then [last] else [])
  }

  function Held(workers: seq<Worker>): seq<JobId> {
    if workers != [] && workers[0].Holding? then [workers[0].job] else []
  }

  type Jobs = map<JobId, Job>

  /** The worker has a job of its agent whose result is still to come. */
  ghost predicate WorkerInv(jobs: Jobs, a: AgentId, worker: Worker) {
    match worker
    case Spawning => true
    case AtLoop => true
    case Holding(j) => j in jobs && jobs[j].agent == a && jobs[j].fate.Popped?
    case Running(j) => j in jobs && jobs[j].agent == a && jobs[j].fate.Started? && jobs[j].outcome.None?
    case Finishing(j, r) =>
      && j in jobs && jobs[j].agent == a && jobs[j].sent == []
      && (if r.ContextError? then jobs[j].fate.Skipped? else jobs[j].fate.Started? && jobs[j].outcome == Some(r))
  }

  /** Exactly one worker while running and none otherwise; waiting jobs have one. */
  ghost predicate OneWorker(agent: Agent) {
    && |agent.workers| == (if agent.queue.running then 1 else 0)
    && (agent.queue.jobs != [] ==> agent.queue.running)
  }

  ghost predicate ListsInv(jobs: Jobs, a: AgentId, agent: Agent) {
    && Distinct(agent.submitted)
    && Distinct(agent.queue.jobs)
    && (forall j :: j in agent.submitted ==> j in jobs && jobs[j].agent == a)
    && (forall j :: j in agent.queue.jobs ==> j in jobs && jobs[j].agent == a && jobs[j].fate.Queued?)
    && (forall j :: j in agent.started ==> j in jobs && jobs[j].agent == a && jobs[j].fate.Started?)
  }

  /** First in, first out: the jobs not cancelled in time are, in the order they were
      submitted, the started ones, the one a worker holds and the waiting ones. */
  ghost predicate InOrder(jobs: Jobs, agent: Agent) {
    Survivors(jobs, agent.submitted) == agent.started + Held(agent.workers) + agent.queue.jobs
  }

  ghost predicate AgentInv(jobs: Jobs, a: AgentId, agent: Agent) {
    && OneWorker(agent)
    && ListsInv(jobs, a, agent)
    && (forall w :: 0 <= w < |agent.workers| ==> WorkerInv(jobs, a, agent.workers[w]))
    && InOrder(jobs, agent)
  }

  ghost predicate WorkerIs(agent: Agent, worker: Worker) {
    |agent.workers| == 1 && agent.workers[0] == worker
  }

  /** Who owns the result: the queue, a worker, or nobody any more because it was sent. */
  ghost predicate Owned(agent: Agent, j: JobId, job: Job) {
    && j in agent.submitted
    && match job.fate
       case Queued => j in agent.queue.jobs && job.sent == [] && job.outcome.None?
       case Popped => WorkerIs(agent, Holding(j)) && job.sent == [] && job.outcome.None?
       case Skipped =>
         job.ctxDone && job.outcome.None? && ((WorkerIs(agent, Finishing(j, ContextError)) && job.sent == []) || job.sent == [ContextError])
       case Removed => job.ctxDone && job.outcome.None? && job.sent == [ContextError]
       case Started =>
         || (WorkerIs(agent, Running(j)) && job.outcome.None? && job.sent == [])
         || (job.outcome.Some? && !job.outcome.value.ContextError?
             && ((WorkerIs(agent, Finishing(j, job.outcome.value)) && job.sent == [])
                 || job.sent == [job.outcome.value]))
  }

  /** The channel holds or has delivered what was sent, and nothing was dropped. */
  ghost predicate ChannelInv(job: Job) {
    && job.dropped == []
    && |job.sent| <= 1
    && (job.channel.None? ==> job.received == job.sent)
    && (job.channel.Some? ==> job.received == [] && job.sent == [job.channel.value])
    && (job.caller.Left? ==> job.received == job.sent && |job.sent| == 1)
    && (job.caller.Waiting? || job.caller.Cancelling? || job.caller.Draining? ==> job.received == [])
    && (job.caller.Cancelling? || job.caller.Draining? ==> job.ctxDone)
    && (job.caller.Draining? ==> !job.fate.Queued?)
  }

  ghost predicate JobInv(agent: Agent, j: JobId, job: Job) {
    Owned(agent, j, job) && ChannelInv(job)
  }

  ghost predicate Inv(s: State) {
    && (forall a :: a in s.agents ==> AgentInv(s.jobs, a, s.agents[a]))
    && (forall j :: j in s.jobs ==> s.jobs[j].agent in s.agents && JobInv(s.agents[s.jobs[j].agent], j, s.jobs[j]))
  }

  lemma InitialInv()
    ensures Inv(Initial())
  {}

  // ---------------------------------------------------------------------------
  // Facts about lists

  lemma {:induction false} SurvivorsSame(jobs: map<JobId, Job>, jobs': map<JobId, Job>, list: seq<JobId>)
    requires forall j :: j in list ==> j in jobs && j in jobs' && Survives(jobs[j]) == Survives(jobs'[j])
    ensures Survivors(jobs, list) == Survivors(jobs', list)
  {
    if list != [] {
      var front, last := list[..|list| - 1], list[|list| - 1];
      assert list == front + [last];
      SurvivorsSame(jobs, jobs', front);
    }
  }

  lemma SurvivorsSnoc(jobs: map<JobId, Job>, list: seq<JobId>, j: JobId)
    ensures Survivors(jobs, list + [j]) == Survivors(jobs, list) + (if j in jobs && Survives(jobs[j]) then [j] else [])
  {
    assert (list + [j])[..|list|] == list;
  }

  lemma {:induction false} WithoutFacts<T>(list: seq<T>, x: T)
    requires Distinct(list)
    ensures Distinct(Without(list, x))
    ensures forall y :: y in Without(list, x) <==> y in list && y != x
    ensures x !in list ==> Without(list, x) == list
  {
    if list != [] {
      var rest := list[1..];
      assert list == [list[0]] + rest;
      WithoutFacts(rest, x);
      if list[0] == x {
        assert x !in rest;
      } else {
        assert list[0] !in rest;
        DistinctCons(list[0], Without(rest, x));
      }
    }
  }

  lemma DistinctCons<T>(x: T, list: seq<T>)
    requires Distinct(list) && x !in list
    ensures Distinct([x] + list)
  {}

  lemma DistinctSnoc<T>(list: seq<T>, x: T)
    requires Distinct(list) && x !in list
    ensures Distinct(list + [x])
  {}

  lemma {:induction false} WithoutConcat<T>(a: seq<T>, b: seq<T>, x: T)
    requires x !in a
    ensures Without(a + b, x) == a + Without(b, x)
  {
    if a == [] {
      assert a + b == b;
    } else {
      var rest := a[1..];
      assert a + b == [a[0]] + (rest + b);
      WithoutConcat(rest, b, x);
    }
  }

  lemma {:induction false} WithoutAbsent<T>(list: seq<T>, x: T)
    requires x !in list
    ensures Without(list, x) == list
  {
    WithoutConcat(list, [], x);
    assert list + [] == list;
  }

  lemma {:induction false} SurvivorsAre(jobs: map<JobId, Job>, list: seq<JobId>)
    ensures forall j :: j in Survivors(jobs, list) <==> j in list && j in jobs && Survives(jobs[j])
  {
    if list != [] {
      var front, last := list[..|list| - 1], list[|list| - 1];
      assert list == front + [last];
      SurvivorsAre(jobs, front);
    }
  }

  lemma WithoutHead<T>(x: T, rest: seq<T>)
    ensures Without([x] + rest, x) == rest
  {}

  // When one job stops surviving it leaves the list of survivors and nothing else does.
  lemma {:induction false} SurvivorsWithout(jobs: map<JobId, Job>, jobs': map<JobId, Job>, list: seq<JobId>, x: JobId)
    requires Distinct(list)
    requires forall j :: j in list ==> j in jobs && j in jobs'
    requires forall j :: j in list && j != x ==> Survives(jobs[j]) == Survives(jobs'[j])
    requires x in list ==> !Survives(jobs'[x])
    ensures Survivors(jobs', list) == Without(Survivors(jobs, list), x)
  {
    hide Without, Survives;
    WithoutAbsent([], x);
    if list != [] {
      var front, last := list[..|list| - 1], list[|list| - 1];
      var earlier := Survivors(jobs, front);
      assert list == front + [last];
      SurvivorsAre(jobs, front);
      if last == x {
        assert x !in front;
        SurvivorsSame(jobs, jobs', front);
        WithoutAbsent(earlier, x);
        WithoutConcat(earlier, [x], x);
        WithoutHead(x, []);
        assert [x] + [] == [x];
        assert earlier + [] == earlier;
      } else {
        SurvivorsWithout(jobs, jobs', front, x);
        WithoutSnoc(earlier, last, x);
        assert earlier + [] == earlier;
        assert Survivors(jobs', front) + [] == Survivors(jobs', front);
      }
    }
  }

  lemma {:induction false} WithoutSnoc<T>(list: seq<T>, last: T, x: T)
    requires last != x
    ensures Without(list + [last], x) == Without(list, x) + [last]
  {
    if list == [] {
      assert list + [last] == [last];
      assert Without([last], x) == [last] + Without([], x);
    } else {
      assert list + [last] == [list[0]] + (list[1..] + [last]);
      WithoutSnoc(list[1..], last, x);
    }
  }

  // ---------------------------------------------------------------------------
  // Every step keeps the invariant

  function JobOf(worker: Worker): Option<JobId> {
    match worker
    case Spawning => None
    case AtLoop => None
    case Holding(j) => Some(j)
    case Running(j) => Some(j)
    case Finishing(j, _) => Some(j)
  }

  /** What the other jobs of the agent rely on is still there. */
  ghost predicate KeepsOthers(agent: Agent, agent': Agent, changed: Option<JobId>) {
    && (forall k :: k in agent.queue.jobs && changed != Some(k) ==> k in agent'.queue.jobs)
    && (forall k :: k in agent.submitted ==> k in agent'.submitted)
    && (|agent.workers| == 1 && JobOf(agent.workers[0]).Some? && JobOf(agent.workers[0]) != changed ==>
          agent'.workers == agent.workers)
  }

  lemma OtherJob(agent: Agent, agent': Agent, changed: Option<JobId>, k: JobId, job: Job)
    requires JobInv(agent, k, job) && KeepsOthers(agent, agent', changed) && changed != Some(k)
    ensures JobInv(agent', k, job)
  {}

  // Nothing an agent sees depends on a job of another agent.
  lemma OtherAgent(jobs: Jobs, jobs': Jobs, b: AgentId, agent: Agent)
    requires AgentInv(jobs, b, agent)
    requires forall j :: j in jobs && jobs[j].agent == b ==> j in jobs' && jobs'[j] == jobs[j]
    ensures AgentInv(jobs', b, agent)
  {
    hide Survivors;
    SurvivorsSame(jobs, jobs', agent.submitted);
  }

  /** The state after agent a becomes agent' and job j becomes job'. */
  function Updated(s: State, a: AgentId, agent: Agent, j: JobId, job: Job): State {
    State(s.agents[a := agent], s.jobs[j := job])
  }

  lemma Reassemble(s: State, a: AgentId, agent': Agent, j: JobId, job': Job)
    requires Inv(s)
    requires job'.agent == a && (j in s.jobs ==> s.jobs[j].agent == a)
    requires AgentInv(s.jobs[j := job'], a, agent') && JobInv(agent', j, job')
    requires a in s.agents ==> KeepsOthers(s.agents[a], agent', Some(j))
    ensures Inv(Updated(s, a, agent', j, job'))
  {
    hide AgentInv, JobInv, KeepsOthers;
    var s' := Updated(s, a, agent', j, job');
    forall b | b in s'.agents
      ensures AgentInv(s'.jobs, b, s'.agents[b])
    {
      if b != a { OtherAgent(s.jobs, s'.jobs, b, s.agents[b]); }
    }
    forall k | k in s'.jobs
      ensures s'.jobs[k].agent in s'.agents && JobInv(s'.agents[s'.jobs[k].agent], k, s'.jobs[k])
    {
      if k != j && s.jobs[k].agent == a { OtherJob(s.agents[a], agent', Some(j), k, s.jobs[k]); }
    }
  }

  lemma ReassembleAgent(s: State, a: AgentId, agent': Agent)
    requires Inv(s) && a in s.agents && AgentInv(s.jobs, a, agent') && KeepsOthers(s.agents[a], agent', None)
    ensures Inv(s.(agents := s.agents[a := agent']))
  {
    hide AgentInv, JobInv, KeepsOthers;
    forall k | k in s.jobs && s.jobs[k].agent == a
      ensures JobInv(agent', k, s.jobs[k])
    {
      OtherJob(s.agents[a], agent', None, k, s.jobs[k]);
    }
  }

  // ----- what each step does to one agent and one job

  lemma LocalSubmit(jobs: Jobs, a: AgentId, agent: Agent, j: JobId, detached: bool)
    requires AgentInv(jobs, a, agent) && j !in jobs
    ensures AgentInv(jobs[j := NewJob(a, detached)], a, Submitted(agent, j))
    ensures JobInv(Submitted(agent, j), j, NewJob(a, detached))
    ensures KeepsOthers(agent, Submitted(agent, j), Some(j))
  {
    hide Survivors;
    var jobs', agent' := jobs[j := NewJob(a, detached)], Submitted(agent, j);
    DistinctSnoc(agent.submitted, j);
    DistinctSnoc(agent.queue.jobs, j);
    SurvivorsSame(jobs, jobs', agent.submitted);
    SurvivorsSnoc(jobs', agent.submitted, j);
    assert Held(agent'.workers) == Held(agent.workers);
    assert j in agent'.queue.jobs && j in agent'.submitted;
    if |agent.workers| == 1 { assert WorkerInv(jobs, a, agent.workers[0]); }
  }

  lemma LocalSpawn(jobs: Jobs, a: AgentId, agent: Agent, w: nat)
    requires AgentInv(jobs, a, agent) && w < |agent.workers| && agent.workers[w].Spawning?
    ensures AgentInv(jobs, a, WithWorker(agent, w, AtLoop)) && KeepsOthers(agent, WithWorker(agent, w, AtLoop), None)
  {
    hide Survivors;
  }

  lemma LocalRetire(jobs: Jobs, a: AgentId, agent: Agent, w: nat)
    requires AgentInv(jobs, a, agent) && w < |agent.workers| && agent.workers[w].AtLoop? && agent.queue.jobs == []
    ensures AgentInv(jobs, a, Retired(agent, w)) && KeepsOthers(agent, Retired(agent, w), None)
  {
    hide Survivors;
  }

  lemma LocalPop(jobs: Jobs, a: AgentId, agent: Agent, w: nat, job: Job)
    requires AgentInv(jobs, a, agent) && w < |agent.workers| && agent.workers[w].AtLoop? && agent.queue.jobs != []
    requires var j := agent.queue.jobs[0]; j in jobs && jobs[j] == job && JobInv(agent, j, job)
    ensures var j := agent.queue.jobs[0];
      && AgentInv(jobs[j := job.(fate := Popped)], a, PoppedBy(agent, w))
      && JobInv(PoppedBy(agent, w), j, job.(fate := Popped))
      && KeepsOthers(agent, PoppedBy(agent, w), Some(j))
  {
    hide Survivors;
    var j := agent.queue.jobs[0];
    var jobs', agent' := jobs[j := job.(fate := Popped)], PoppedBy(agent, w);
    assert agent.queue.jobs == [j] + agent'.queue.jobs;
    assert j in agent.queue.jobs;
    SurvivorsSame(jobs, jobs', agent.submitted);
    assert agent.started + [] + agent.queue.jobs == agent'.started + [j] + agent'.queue.jobs;
  }

  // The job a worker holds is neither waiting nor started.
  lemma HeldIsAlone(jobs: Jobs, a: AgentId, agent: Agent)
    requires AgentInv(jobs, a, agent) && |agent.workers| == 1 && JobOf(agent.workers[0]).Some?
    ensures JobOf(agent.workers[0]).value !in agent.queue.jobs
    ensures agent.workers[0].Holding? ==> agent.workers[0].job !in agent.started
  {
    hide Survivors, OneWorker, InOrder;
    assert WorkerInv(jobs, a, agent.workers[0]);
  }

  lemma LocalSkip(jobs: Jobs, a: AgentId, agent: Agent, j: JobId, job: Job)
    requires AgentInv(jobs, a, agent) && WorkerIs(agent, Holding(j)) && j in jobs && jobs[j] == job
    requires JobInv(agent, j, job) && job.ctxDone
    ensures var agent' := WithWorker(agent, 0, Finishing(j, ContextError));
      && AgentInv(jobs[j := job.(fate := Skipped)], a, agent')
      && JobInv(agent', j, job.(fate := Skipped))
      && KeepsOthers(agent, agent', Some(j))
  {
    hide Survivors, Without;
    var jobs' := jobs[j := job.(fate := Skipped)];
    HeldIsAlone(jobs, a, agent);
    assert WorkerInv(jobs, a, agent.workers[0]);
    SurvivorsWithout(jobs, jobs', agent.submitted, j);
    WithoutConcat(agent.started, [j] + agent.queue.jobs, j);
    WithoutHead(j, agent.queue.jobs);
    assert agent.started + [j] + agent.queue.jobs == agent.started + ([j] + agent.queue.jobs);
  }

  lemma LocalStart(jobs: Jobs, a: AgentId, agent: Agent, j: JobId, job: Job)
    requires AgentInv(jobs, a, agent) && WorkerIs(agent, Holding(j)) && j in jobs && jobs[j] == job
    requires JobInv(agent, j, job)
    ensures var agent' := WithWorker(agent, 0, Running(j)).(started := agent.started + [j]);
      && AgentInv(jobs[j := job.(fate := Started)], a, agent')
      && JobInv(agent', j, job.(fate := Started))
      && KeepsOthers(agent, agent', Some(j))
  {
    hide Survivors;
    var jobs' := jobs[j := job.(fate := Started)];
    HeldIsAlone(jobs, a, agent);
    assert WorkerInv(jobs, a, agent.workers[0]);
    SurvivorsSame(jobs, jobs', agent.submitted);
  }

  lemma LocalReturn(jobs: Jobs, a: AgentId, agent: Agent, j: JobId, job: Job, outcome: Outcome)
    requires AgentInv(jobs, a, agent) && WorkerIs(agent, Running(j)) && j in jobs && jobs[j] == job
    requires JobInv(agent, j, job) && !outcome.ContextError?
    ensures var agent' := WithWorker(agent, 0, Finishing(j, outcome));
      && AgentInv(jobs[j := job.(outcome := Some(outcome))], a, agent')
      && JobInv(agent', j, job.(outcome := Some(outcome)))
      && KeepsOthers(agent, agent', Some(j))
  {
    hide Survivors;
    var jobs' := jobs[j := job.(outcome := Some(outcome))];
    assert WorkerInv(jobs, a, agent.workers[0]);
    SurvivorsSame(jobs, jobs', agent.submitted);
  }

  lemma LocalSend(jobs: Jobs, a: AgentId, agent: Agent, j: JobId, job: Job, outcome: Outcome)
    requires AgentInv(jobs, a, agent) && WorkerIs(agent, Finishing(j, outcome)) && j in jobs && jobs[j] == job
    requires JobInv(agent, j, job)
    ensures var agent' := WithWorker(agent, 0, AtLoop);
      && AgentInv(jobs[j := Finish(job, outcome)], a, agent')
      && JobInv(agent', j, Finish(job, outcome))
      && KeepsOthers(agent, agent', Some(j))
  {
    hide Survivors;
    var jobs' := jobs[j := Finish(job, outcome)];
    assert WorkerInv(jobs, a, agent.workers[0]);
    SurvivorsSame(jobs, jobs', agent.submitted);
  }

  lemma QueuedIsAlone(jobs: Jobs, a: AgentId, agent: Agent, j: JobId)
    requires AgentInv(jobs, a, agent) && j in agent.queue.jobs
    ensures j !in agent.started + Held(agent.workers)
    ensures |agent.workers| == 1 ==> JobOf(agent.workers[0]) != Some(j)
  {
    hide Survivors, InOrder;
    if |agent.workers| == 1 { assert WorkerInv(jobs, a, agent.workers[0]); }
  }

  lemma LocalRemove(jobs: Jobs, a: AgentId, agent: Agent, j: JobId, job: Job)
    requires AgentInv(jobs, a, agent) && j in agent.queue.jobs && j in jobs && jobs[j] == job
    requires JobInv(agent, j, job) && job.caller.Cancelling?
    ensures var agent' := agent.(queue := agent.queue.(jobs := Without(agent.queue.jobs, j)));
      var job' := Finish(job.(caller := Draining, fate := Removed), ContextError);
      && AgentInv(jobs[j := job'], a, agent')
      && JobInv(agent', j, job')
      && KeepsOthers(agent, agent', Some(j))
  {
    hide Survivors, Without;
    var job' := Finish(job.(caller := Draining, fate := Removed), ContextError);
    var jobs' := jobs[j := job'];
    WithoutFacts(agent.queue.jobs, j);
    SurvivorsWithout(jobs, jobs', agent.submitted, j);
    QueuedIsAlone(jobs, a, agent, j);
    WithoutConcat(agent.started + Held(agent.workers), agent.queue.jobs, j);
    RemoveKeepsWorker(jobs, jobs', a, agent, j);
  }

  lemma RemoveKeepsWorker(jobs: Jobs, jobs': Jobs, a: AgentId, agent: Agent, j: JobId)
    requires AgentInv(jobs, a, agent) && j in jobs && j in jobs' && jobs' == jobs[j := jobs'[j]]
    requires |agent.workers| == 1 ==> JobOf(agent.workers[0]) != Some(j)
    ensures forall w :: 0 <= w < |agent.workers| ==> WorkerInv(jobs', a, agent.workers[w])
  {
    hide Survivors, InOrder, ListsInv;
    if |agent.workers| == 1 { assert WorkerInv(jobs, a, agent.workers[0]); }
  }

  // Changing a job's context, caller or receipts, which its agent does not look at.
  lemma LocalQuiet(jobs: Jobs, a: AgentId, agent: Agent, j: JobId, job: Job, job': Job)
    requires AgentInv(jobs, a, agent) && j in jobs && jobs[j] == job && JobInv(agent, j, job)
    requires job'.agent == job.agent && job'.fate == job.fate && job'.outcome == job.outcome && job'.sent == job.sent
    requires (job.ctxDone ==> job'.ctxDone) && ChannelInv(job')
    ensures AgentInv(jobs[j := job'], a, agent) && JobInv(agent, j, job') && KeepsOthers(agent, agent, Some(j))
  {
    hide Survivors;
    var jobs' := jobs[j := job'];
    SurvivorsSame(jobs, jobs', agent.submitted);
    forall w | 0 <= w < |agent.workers|
      ensures WorkerInv(jobs', a, agent.workers[w])
    {
      assert WorkerInv(jobs, a, agent.workers[w]);
    }
  }

  // ----- the steps

  // The invariant for one agent, new or known.
  lemma InvAt(s: State, a: AgentId)
    requires Inv(s)
    ensures AgentInv(s.jobs, a, AgentOf(s, a))
  {
    hide AgentInv;
    if a !in s.agents { EmptyAgentInv(s.jobs, a); }
  }

  lemma EmptyAgentInv(jobs: Jobs, a: AgentId)
    ensures AgentInv(jobs, a, EmptyAgent())
  {}

  lemma JobAt(s: State, j: JobId)
    requires Inv(s) && j in s.jobs
    ensures s.jobs[j].agent in s.agents
    ensures AgentInv(s.jobs, s.jobs[j].agent, s.agents[s.jobs[j].agent])
    ensures JobInv(s.agents[s.jobs[j].agent], j, s.jobs[j])
  {
    hide AgentInv, JobInv;
  }

  // The only worker is the one that moves.
  lemma SoleWorker(s: State, a: AgentId, w: nat)
    requires Inv(s) && HasWorker(s, a, w)
    ensures w == 0 && WorkerIs(s.agents[a], s.agents[a].workers[0])
    ensures var worker := s.agents[a].workers[0];
      JobOf(worker).Some? ==> JobOf(worker).value in s.jobs && s.jobs[JobOf(worker).value].agent == a
  {
    hide Survivors;
    assert AgentInv(s.jobs, a, s.agents[a]);
    assert WorkerInv(s.jobs, a, s.agents[a].workers[w]);
  }

  lemma SubmitKeeps(s: State, a: AgentId, j: JobId, detached: bool)
    requires Inv(s) && j !in s.jobs
    ensures Inv(Apply(s, Submit(a, j, detached)))
  {
    hide AgentInv, JobInv, KeepsOthers, Inv, Submitted;
    InvAt(s, a);
    LocalSubmit(s.jobs, a, AgentOf(s, a), j, detached);
    Reassemble(s, a, Submitted(AgentOf(s, a), j), j, NewJob(a, detached));
  }

  lemma TakeKeeps(s: State, a: AgentId, w: nat)
    requires Inv(s) && Enabled(s, Take(a, w))
    ensures Inv(Apply(s, Take(a, w)))
  {
    hide AgentInv, JobInv, KeepsOthers, Inv;
    InvAt(s, a);
    var agent := s.agents[a];
    if agent.queue.jobs == [] {
      LocalRetire(s.jobs, a, agent, w);
      ReassembleAgent(s, a, Retired(agent, w));
    } else {
      var j := agent.queue.jobs[0];
      QueuedKnown(s.jobs, a, agent, j);
      JobAt(s, j);
      LocalPop(s.jobs, a, agent, w, s.jobs[j]);
      Reassemble(s, a, PoppedBy(agent, w), j, s.jobs[j].(fate := Popped));
    }
  }

  lemma QueuedKnown(jobs: Jobs, a: AgentId, agent: Agent, j: JobId)
    requires AgentInv(jobs, a, agent) && j in agent.queue.jobs
    ensures j in jobs && jobs[j].agent == a
  {
    hide Survivors;
  }

  lemma CheckKeeps(s: State, a: AgentId, w: nat)
    requires Inv(s) && Enabled(s, Check(a, w))
    ensures Inv(Apply(s, Check(a, w)))
  {
    hide AgentInv, JobInv, KeepsOthers, Inv;
    SoleWorker(s, a, w);
    var agent := s.agents[a];
    var j := agent.workers[0].job;
    JobAt(s, j);
    if s.jobs[j].ctxDone {
      LocalSkip(s.jobs, a, agent, j, s.jobs[j]);
      Reassemble(s, a, WithWorker(agent, 0, Finishing(j, ContextError)), j, s.jobs[j].(fate := Skipped));
    } else {
      LocalStart(s.jobs, a, agent, j, s.jobs[j]);
      Reassemble(s, a, WithWorker(agent, 0, Running(j)).(started := agent.started + [j]), j,
                 s.jobs[j].(fate := Started));
    }
  }

  lemma ReturnKeeps(s: State, a: AgentId, w: nat, outcome: Outcome)
    requires Inv(s) && Enabled(s, Return(a, w, outcome))
    ensures Inv(Apply(s, Return(a, w, outcome)))
  {
    hide AgentInv, JobInv, KeepsOthers, Inv;
    SoleWorker(s, a, w);
    var agent := s.agents[a];
    var j := agent.workers[0].job;
    JobAt(s, j);
    LocalReturn(s.jobs, a, agent, j, s.jobs[j], outcome);
    Reassemble(s, a, WithWorker(agent, 0, Finishing(j, outcome)), j, s.jobs[j].(outcome := Some(outcome)));
  }

  lemma SendKeeps(s: State, a: AgentId, w: nat)
    requires Inv(s) && Enabled(s, Send(a, w))
    ensures Inv(Apply(s, Send(a, w)))
  {
    hide AgentInv, JobInv, KeepsOthers, Inv, Finish;
    SoleWorker(s, a, w);
    var agent := s.agents[a];
    var j, outcome := agent.workers[0].job, agent.workers[0].outcome;
    JobAt(s, j);
    FinishKeepsAgent(s.jobs[j], outcome);
    LocalSend(s.jobs, a, agent, j, s.jobs[j], outcome);
    Reassemble(s, a, WithWorker(agent, 0, AtLoop), j, Finish(s.jobs[j], outcome));
  }

  lemma FinishKeepsAgent(job: Job, outcome: Outcome)
    ensures Finish(job, outcome).agent == job.agent
  {}

  lemma QuietKeeps(s: State, j: JobId, job': Job)
    requires Inv(s) && j in s.jobs
    requires var job := s.jobs[j];
      job'.agent == job.agent && job'.fate == job.fate && job'.outcome == job.outcome && job'.sent == job.sent
      && (job.ctxDone ==> job'.ctxDone)
    requires ChannelInv(job')
    ensures Inv(s.(jobs := s.jobs[j := job']))
  {
    hide AgentInv, JobInv, KeepsOthers, Inv, ChannelInv;
    JobAt(s, j);
    var a := s.jobs[j].agent;
    LocalQuiet(s.jobs, a, s.agents[a], j, s.jobs[j], job');
    Reassemble(s, a, s.agents[a], j, job');
    assert s.agents[a := s.agents[a]] == s.agents;
  }

  lemma CancelPendingKeeps(s: State, j: JobId)
    requires Inv(s) && Enabled(s, CancelPending(j))
    ensures Inv(Apply(s, CancelPending(j)))
  {
    hide AgentInv, KeepsOthers, Inv, Finish, Without;
    JobAt(s, j);
    var job := s.jobs[j];
    var a := job.agent;
    var agent := s.agents[a];
    if j in agent.queue.jobs {
      LocalRemove(s.jobs, a, agent, j, job);
      var job' := Finish(job.(caller := Draining, fate := Removed), ContextError);
      FinishKeepsAgent(job.(caller := Draining, fate := Removed), ContextError);
      Reassemble(s, a, agent.(queue := agent.queue.(jobs := Without(agent.queue.jobs, j))), j, job');
    } else {
      QuietKeeps(s, j, job.(caller := Draining));
    }
  }

  /** Every step keeps the invariant. */
  lemma StepKeepsInv(s: State, step: Step)
    requires Inv(s) && Enabled(s, step)
    ensures Inv(Apply(s, step))
  {
    hide AgentInv, Owned, KeepsOthers, Inv;
    match step
    case Submit(a, j, detached) => SubmitKeeps(s, a, j, detached);
    case Spawn(a, w) =>
      InvAt(s, a);
      LocalSpawn(s.jobs, a, s.agents[a], w);
      ReassembleAgent(s, a, WithWorker(s.agents[a], w, AtLoop));
    case Take(a, w) => TakeKeeps(s, a, w);
    case Check(a, w) => CheckKeeps(s, a, w);
    case Return(a, w, outcome) => ReturnKeeps(s, a, w, outcome);
    case Send(a, w) => SendKeeps(s, a, w);
    case CancelContext(j) =>
      JobAt(s, j);
      QuietKeeps(s, j, s.jobs[j].(ctxDone := true));
    case SeeDone(j) =>
      JobAt(s, j);
      QuietKeeps(s, j, s.jobs[j].(caller := Cancelling));
    case CancelPending(j) => CancelPendingKeeps(s, j);
    case GetResult(j) =>
      JobAt(s, j);
      QuietKeeps(s, j, Apply(s, step).jobs[j]);
  }

  // ---------------------------------------------------------------------------
  // What holds in every run

  lemma {:induction false} RunKeepsInv(run: Run, k: nat)
    requires IsRun(run) && k < |run.states|
    ensures Inv(run.states[k])
  {
    hide Inv, Apply, Enabled;
    if k == 0 {
      InitialInv();
    } else {
      RunKeepsInv(run, k - 1);
      StepKeepsInv(run.states[k - 1], run.steps[k - 1]);
    }
  }

  /** At every moment of every run an agent has at most one turn running, and its
      turns started in the order they were submitted: the submitted jobs that were not
      cancelled before their start are those started, then at most one a worker
      holds, then those waiting. */
  lemma TurnsInOrder(run: Run, k: nat, a: AgentId)
    requires IsRun(run) && k < |run.states| && a in run.states[k].agents
    ensures var s := run.states[k]; var agent := s.agents[a];
      && (forall v: nat, w: nat :: HasWorker(s, a, v) && HasWorker(s, a, w) && agent.workers[v].Running? && agent.workers[w].Running? ==> v == w)
      && Survivors(s.jobs, agent.submitted) == agent.started + Held(agent.workers) + agent.queue.jobs
      && (agent.queue.jobs != [] ==> |agent.workers| == 1)
      && (!agent.queue.running ==> Survivors(s.jobs, agent.submitted) == agent.started)
  {
    hide IsRun, Survivors;
    RunKeepsInv(run, k);
    var s := run.states[k];
    var agent := s.agents[a];
    assert AgentInv(s.jobs, a, agent);
    if agent.workers != [] {
      assert agent.workers[..0] == [];
    }
  }

  /** Starts and submissions are only ever added, so the order above is the order of
      the whole run. */
  lemma {:induction false} HistoryGrows(run: Run, i: nat, k: nat, a: AgentId)
    requires IsRun(run) && i <= k < |run.states|
    ensures AgentOf(run.states[i], a).started <= AgentOf(run.states[k], a).started
    ensures AgentOf(run.states[i], a).submitted <= AgentOf(run.states[k], a).submitted
    decreases k
  {
    hide Apply, Enabled;
    if i < k {
      HistoryGrows(run, i, k - 1, a);
      StepGrowsHistory(run.states[k - 1], run.steps[k - 1], a);
    }
  }

  lemma StepGrowsHistory(s: State, step: Step, a: AgentId)
    requires Enabled(s, step)
    ensures AgentOf(s, a).started <= AgentOf(Apply(s, step), a).started
    ensures AgentOf(s, a).submitted <= AgentOf(Apply(s, step), a).submitted
  {}

  /** The agent whose queue a step may change. */
  function Touched(s: State, step: Step): Option<AgentId> {
    match step
    case Submit(a, _, _) => Some(a)
    case Spawn(a, _) => Some(a)
    case Take(a, _) => Some(a)
    case Check(a, _) => Some(a)
    case Return(a, _, _) => Some(a)
    case Send(a, _) => Some(a)
    case CancelContext(_) => None
    case SeeDone(_) => None
    case CancelPending(j) => if j in s.jobs then Some(s.jobs[j].agent) else None
    case GetResult(_) => None
  }

  lemma OtherAgentsAtWork(s: State, step: Step, b: AgentId)
    requires Inv(s) && Enabled(s, step) && (step.Take? || step.Check? || step.Return? || step.Send?) && step.agent != b
    ensures AgentOf(Apply(s, step), b) == AgentOf(s, b)
    ensures forall j :: j in s.jobs && s.jobs[j].agent == b ==> j in Apply(s, step).jobs && Apply(s, step).jobs[j] == s.jobs[j]
  {
    hide AgentInv, JobInv, Finish, Without, WithWorker, PoppedBy, Retired;
    if step.Take? {
      if s.agents[step.agent].queue.jobs != [] { QueuedKnown(s.jobs, step.agent, s.agents[step.agent], s.agents[step.agent].queue.jobs[0]); }
    } else {
      SoleWorker(s, step.agent, step.worker);
    }
  }

  /** A step of one agent never changes another agent's queue, workers or record, nor
      any job of another agent. */
  lemma OtherAgentsUntouched(s: State, step: Step, b: AgentId)
    requires Inv(s) && Enabled(s, step) && Touched(s, step) != Some(b)
    ensures AgentOf(Apply(s, step), b) == AgentOf(s, b)
    ensures Touched(s, step).Some? ==>
      forall j :: j in s.jobs && s.jobs[j].agent == b ==> j in Apply(s, step).jobs && Apply(s, step).jobs[j] == s.jobs[j]
  {
    hide AgentInv, JobInv, Finish, Without, Submitted, NewJob, WithWorker, PoppedBy, Retired;
    match step
    case Check(a, w) => OtherAgentsAtWork(s, step, b);
    case Return(a, w, _) => OtherAgentsAtWork(s, step, b);
    case Send(a, w) => OtherAgentsAtWork(s, step, b);
    case Take(a, w) => OtherAgentsAtWork(s, step, b);
    case Submit(_, _, _) =>
    case Spawn(_, _) =>
    case CancelContext(_) =>
    case SeeDone(_) =>
    case CancelPending(_) =>
    case GetResult(_) =>
  }

  /** What a job reports: its context's error if it was removed or skipped, and
      otherwise what its callback did. */
  ghost predicate ReportsFate(job: Job) {
    job.sent != [] ==>
      match job.fate
      case Removed => job.sent == [ContextError] && job.ctxDone
      case Skipped => job.sent == [ContextError] && job.ctxDone
      case Started => job.outcome.Some? && !job.outcome.value.ContextError? && job.sent == [job.outcome.value]
      case Queued => false
      case Popped => false
  }

  /** No value is ever dropped and no job reports twice; a caller gets the value that
      was sent; and a job that has not reported yet is waiting in the queue or in the
      hands of its agent's worker. */
  lemma OneResult(run: Run, k: nat, j: JobId)
    requires IsRun(run) && k < |run.states| && j in run.states[k].jobs
    ensures var s := run.states[k]; var job := s.jobs[j];
      && job.dropped == []
      && |job.sent| <= 1
      && job.received <= job.sent
      && (job.caller.Left? ==> job.received == job.sent && |job.sent| == 1)
      && ReportsFate(job)
      && job.agent in s.agents
      && (job.sent == [] ==>
            var agent := s.agents[job.agent];
            j in agent.queue.jobs || (|agent.workers| == 1 && JobOf(agent.workers[0]) == Some(j)))
  {
    hide IsRun, AgentInv;
    RunKeepsInv(run, k);
    var s := run.states[k];
    assert JobInv(s.agents[s.jobs[j].agent], j, s.jobs[j]);
  }

  /** The last receive of Enqueue always has a sender: the value is in the channel or
      a worker is about to send it. */
  lemma DrainHasSender(run: Run, k: nat, j: JobId)
    requires IsRun(run) && k < |run.states| && j in run.states[k].jobs && run.states[k].jobs[j].caller.Draining?
    ensures var s := run.states[k]; var job := s.jobs[j];
      job.channel.Some?
      || (job.agent in s.agents && |s.agents[job.agent].workers| == 1 && JobOf(s.agents[job.agent].workers[0]) == Some(j))
  {
    hide IsRun, AgentInv;
    RunKeepsInv(run, k);
    var s := run.states[k];
    assert JobInv(s.agents[s.jobs[j].agent], j, s.jobs[j]);
  }

  // ---------------------------------------------------------------------------
  // The queue drains

  /** Steps a worker still has ahead of it, not counting the jobs that wait. */
  function Weight(worker: Worker): nat {
    match worker
    case Spawning => 2
    case AtLoop => 1
    case Holding(_) => 5
    case Running(_) => 4
    case Finishing(_, _) => 3
  }

  function Weights(workers: seq<Worker>): nat {
    if workers == [] then 0 else Weights(workers[..|workers| - 1]) + Weight(workers[|workers| - 1])
  }

  function Measure(agent: Agent): nat {
    5 * |agent.queue.jobs| + Weights(agent.workers)
  }

  predicate IsWorkerStep(step: Step, a: AgentId) {
    match step
    case Spawn(b, _) => a == b
    case Take(b, _) => a == b
    case Check(b, _) => a == b
    case Return(b, _, _) => a == b
    case Send(b, _) => a == b
    case _ => false
  }

  predicate IsSubmitTo(step: Step, a: AgentId) {
    step.Submit? && step.agent == a
  }

  lemma WeightsOfOne(worker: Worker)
    ensures Weights([worker]) == Weight(worker)
  {
    assert [worker][..0] == [];
  }

  lemma {:induction false} WithoutShrinks<T>(list: seq<T>, x: T)
    requires x in list
    ensures |Without(list, x)| == |list| - 1
  {
    if list[0] != x {
      assert list == [list[0]] + list[1..];
      WithoutShrinks(list[1..], x);
    }
  }

  /** Without new submissions to an agent, no step of anybody increases its measure
      and every step of its worker decreases it, whether the turn fails, panics, is
      skipped or succeeds. */
  lemma MeasureDecreases(s: State, step: Step, a: AgentId)
    requires Inv(s) && Enabled(s, step) && !IsSubmitTo(step, a)
    ensures Measure(AgentOf(Apply(s, step), a)) <= Measure(AgentOf(s, a))
    ensures IsWorkerStep(step, a) ==> Measure(AgentOf(Apply(s, step), a)) < Measure(AgentOf(s, a))
  {
    hide AgentInv, JobInv, Finish, Without, Submitted, NewJob;
    if IsWorkerStep(step, a) {
      WorkerStepDecreases(s, step, a);
    } else if step.CancelPending? && s.jobs[step.job].agent == a {
      var agent := AgentOf(s, a);
      if step.job in agent.queue.jobs { WithoutShrinks(agent.queue.jobs, step.job); }
    } else {
      OtherAgentsUntouched(s, step, a);
    }
  }

  lemma WorkerStepDecreases(s: State, step: Step, a: AgentId)
    requires Inv(s) && Enabled(s, step) && IsWorkerStep(step, a)
    ensures Measure(AgentOf(Apply(s, step), a)) < Measure(AgentOf(s, a))
  {
    hide AgentInv, JobInv, Finish, Inv;
    SoleWorker(s, a, step.worker);
    var before, after := s.agents[a].workers, Apply(s, step).agents[a].workers;
    assert before == [before[0]];
    WeightsOfOne(before[0]);
    if after != [] {
      assert after == [after[0]];
      WeightsOfOne(after[0]);
    }
  }

  lemma WorkersWhenBusy(jobs: Jobs, a: AgentId, agent: Agent)
    requires AgentInv(jobs, a, agent)
    ensures Measure(agent) > 0 <==> agent.workers != []
    ensures agent.workers == [] ==> agent.queue == Turns([], false)
  {
    hide Survivors, Distinct, InOrder;
    if agent.workers != [] { assert Weights(agent.workers) >= Weight(agent.workers[|agent.workers| - 1]); }
  }

  /** Unless the agent is idle, its worker can take a step. */
  lemma WorkerCanStep(s: State, a: AgentId) returns (step: Step)
    requires Inv(s) && a in s.agents && Measure(s.agents[a]) > 0
    ensures IsWorkerStep(step, a) && Enabled(s, step)
  {
    hide AgentInv, JobInv, Inv, Measure;
    InvAt(s, a);
    WorkersWhenBusy(s.jobs, a, s.agents[a]);
    SoleWorker(s, a, 0);
    match s.agents[a].workers[0]
    case Spawning => step := Spawn(a, 0);
    case AtLoop => step := Take(a, 0);
    case Holding(_) => step := Check(a, 0);
    case Running(_) => step := Return(a, 0, Succeeded);
    case Finishing(_, _) => step := Send(a, 0);
  }

  /** The steps of the agent's worker between two moments. */
  ghost function WorkerSteps(steps: seq<Step>, begin: nat, end: nat, a: AgentId): set<nat>
    requires end <= |steps|
  {
    set k: nat | begin <= k < end && IsWorkerStep(steps[k], a)
  }

  /** From any moment of a run on, as long as nothing is submitted to the agent, its
      worker takes at most as many steps as the measure says. */
  lemma {:induction false} DrainsWithin(run: Run, begin: nat, end: nat, a: AgentId)
    requires IsRun(run) && begin <= end < |run.states|
    requires forall k :: begin <= k < end ==> !IsSubmitTo(run.steps[k], a)
    ensures |WorkerSteps(run.steps, begin, end, a)| + Measure(AgentOf(run.states[end], a)) <= Measure(AgentOf(run.states[begin], a))
    decreases end
  {
    hide Apply, Enabled, Measure, Inv, AgentOf, IsWorkerStep;
    if begin == end {
      assert WorkerSteps(run.steps, begin, end, a) == {};
    } else {
      DrainsWithin(run, begin, end - 1, a);
      RunKeepsInv(run, end - 1);
      MeasureDecreases(run.states[end - 1], run.steps[end - 1], a);
      var earlier := WorkerSteps(run.steps, begin, end - 1, a);
      assert end - 1 !in earlier;
      assert WorkerSteps(run.steps, begin, end, a) == earlier + (if IsWorkerStep(run.steps[end - 1], a) then {end - 1} else {});
    }
  }

  /** When the worker of an agent has no step left, nothing is waiting or running and
      every job ever submitted to the agent has exactly one result. */
  lemma DrainedMeansDone(run: Run, k: nat, a: AgentId)
    requires IsRun(run) && k < |run.states| && a in run.states[k].agents
    requires forall step :: Enabled(run.states[k], step) ==> !IsWorkerStep(step, a)
    ensures var s := run.states[k]; var agent := s.agents[a];
      && agent.queue == Turns([], false)
      && agent.workers == []
      && agent.started == Survivors(s.jobs, agent.submitted)
      && forall j :: j in agent.submitted ==> j in s.jobs && |s.jobs[j].sent| == 1
  {
    hide IsRun, Survivors, Enabled, Distinct;
    RunKeepsInv(run, k);
    var s := run.states[k];
    var agent := s.agents[a];
    assert AgentInv(s.jobs, a, agent);
    WorkersWhenBusy(s.jobs, a, agent);
    if Measure(agent) > 0 {
      var step := WorkerCanStep(s, a);
    }
    forall j | j in agent.submitted
      ensures j in s.jobs && |s.jobs[j].sent| == 1
    {
      OneResult(run, k, j);
    }
  }
}
