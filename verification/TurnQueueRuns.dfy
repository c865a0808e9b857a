/** What the runs of the turn queue do with contexts and callbacks, said of the states alone. */
module TurnQueueRuns {
  import opened Common
  import opened TurnQueueModel

  // ---------------------------------------------------------------------------
  // Cancelled before the start

  // A job is in the record of starts exactly when its fate says so.
  lemma StartedIsRecorded(s: State, j: JobId)
    requires Inv(s) && j in s.jobs
    ensures s.jobs[j].agent in s.agents
    ensures s.jobs[j].fate.Started? <==> j in s.agents[s.jobs[j].agent].started
  {
    hide Survivors;
    JobAt(s, j);
    var a := s.jobs[j].agent;
    var agent := s.agents[a];
    SurvivorsAre(s.jobs, agent.submitted);
    if s.jobs[j].fate.Started? && agent.workers != [] {
      assert WorkerInv(s.jobs, a, agent.workers[0]);
    }
  }

  // Only a check with the context alive starts a job.
  lemma StaysUnstarted(s: State, step: Step, j: JobId)
    requires Inv(s) && Enabled(s, step) && j in s.jobs && s.jobs[j].ctxDone && !s.jobs[j].fate.Started?
    ensures var s' := Apply(s, step); j in s'.jobs && s'.jobs[j].ctxDone && !s'.jobs[j].fate.Started?
  {
    hide Inv, Submitted, Taken, Without;
  }

  /** No worker is in the job's callback, no record has it as started, and what it was sent is
      its context's error. */
  ghost predicate NeverRan(s: State, j: JobId) {
    && j in s.jobs
    && (forall a :: a in s.agents ==> j !in s.agents[a].started && Running(j) !in s.agents[a].workers)
    && (forall r :: r in s.jobs[j].sent + s.jobs[j].received ==> r == ContextError)
  }

  lemma UnstartedNeverRan(s: State, j: JobId)
    requires Inv(s) && j in s.jobs && !s.jobs[j].fate.Started?
    ensures NeverRan(s, j)
  {
    hide AgentInv;
    assert JobInv(s.agents[s.jobs[j].agent], j, s.jobs[j]);
    forall a | a in s.agents
      ensures j !in s.agents[a].started && Running(j) !in s.agents[a].workers
    {
      UnstartedAt(s.jobs, a, s.agents[a], j);
    }
  }

  lemma UnstartedAt(jobs: Jobs, a: AgentId, agent: Agent, j: JobId)
    requires AgentInv(jobs, a, agent) && j in jobs && !jobs[j].fate.Started?
    ensures j !in agent.started && Running(j) !in agent.workers
  {
    hide Survivors, InOrder, OneWorker;
  }

  /** A job whose context is done at a moment before its start is never started: at no later
      moment is its callback running or recorded, and all it is ever sent is the context's
      error. */
  lemma {:induction false} CancelledNeverStarts(run: Run, i: nat, k: nat, j: JobId)
    requires IsRun(run) && i <= k < |run.states| && j in run.states[i].jobs
    requires run.states[i].jobs[j].ctxDone && j !in AgentOf(run.states[i], run.states[i].jobs[j].agent).started
    ensures NeverRan(run.states[k], j)
  {
    hide IsRun, NeverRan, Inv;
    UnstartedStays(run, i, k, j);
    RunKeepsInv(run, k);
    UnstartedNeverRan(run.states[k], j);
  }

  lemma {:induction false} UnstartedStays(run: Run, i: nat, k: nat, j: JobId)
    requires IsRun(run) && i <= k < |run.states| && j in run.states[i].jobs
    requires run.states[i].jobs[j].ctxDone && j !in AgentOf(run.states[i], run.states[i].jobs[j].agent).started
    ensures var s := run.states[k]; j in s.jobs && s.jobs[j].ctxDone && !s.jobs[j].fate.Started?
    decreases k
  {
    hide Inv, Apply, Enabled;
    if i == k {
      RunKeepsInv(run, i);
      StartedIsRecorded(run.states[i], j);
    } else {
      UnstartedStays(run, i, k - 1, j);
      RunKeepsInv(run, k - 1);
      StaysUnstarted(run.states[k - 1], run.steps[k - 1], j);
    }
  }

  // ---------------------------------------------------------------------------
  // The check

  // A worker that holds a job is the only one, and only its check moves it.
  lemma HolderMoves(s: State, step: Step, a: AgentId, j: JobId)
    requires Inv(s) && Enabled(s, step) && a in s.agents && Holding(j) in s.agents[a].workers
    ensures s.agents[a].workers == [Holding(j)] && j in s.jobs && j !in s.agents[a].started
    ensures a in Apply(s, step).agents
    ensures !(step.Check? && step.agent == a) ==> Apply(s, step).agents[a].workers == [Holding(j)]
  {
    hide AgentInv, JobInv, Finish, Without, NewJob, Inv;
    InvAt(s, a);
    HolderIsAlone(s.jobs, a, s.agents[a], j);
    AgentsStay(s, step, a);
  }

  lemma HolderIsAlone(jobs: Jobs, a: AgentId, agent: Agent, j: JobId)
    requires AgentInv(jobs, a, agent) && Holding(j) in agent.workers
    ensures agent.workers == [Holding(j)] && j in jobs && j !in agent.started && agent.queue.running
  {
    hide Survivors, InOrder;
    var w :| 0 <= w < |agent.workers| && agent.workers[w] == Holding(j);
    assert WorkerInv(jobs, a, agent.workers[w]);
  }

  lemma CheckOutcome(s: State, step: Step, a: AgentId, j: JobId)
    requires a in s.agents && s.agents[a].workers == [Holding(j)] && j in s.jobs
    requires Enabled(s, step) && step.Check? && step.agent == a
    ensures a in Apply(s, step).agents
    ensures var after := Apply(s, step).agents[a];
      if s.jobs[j].ctxDone then after.workers == [Finishing(j, ContextError)] && after.started == s.agents[a].started
      else after.workers == [Running(j)] && after.started == s.agents[a].started + [j]
  {}

  /** When a worker lets go of a job it held, the job was started if its context was alive,
      and is about to be told its context's error otherwise. */
  lemma CheckDecides(run: Run, k: nat, a: AgentId, j: JobId)
    requires IsRun(run) && k + 1 < |run.states| && a in run.states[k].agents
    requires Holding(j) in run.states[k].agents[a].workers
    requires a in run.states[k + 1].agents ==> Holding(j) !in run.states[k + 1].agents[a].workers
    ensures var before, after := run.states[k], run.states[k + 1];
      && j in before.jobs && a in after.agents && j !in before.agents[a].started
      && (if before.jobs[j].ctxDone then
            after.agents[a].workers == [Finishing(j, ContextError)] && after.agents[a].started == before.agents[a].started
          else
            after.agents[a].workers == [Running(j)] && after.agents[a].started == before.agents[a].started + [j])
  {
    hide Inv, Apply, Enabled;
    RunKeepsInv(run, k);
    HolderMoves(run.states[k], run.steps[k], a, j);
    CheckOutcome(run.states[k], run.steps[k], a, j);
  }

  lemma AgentsStay(s: State, step: Step, a: AgentId)
    requires Enabled(s, step) && a in s.agents
    ensures a in Apply(s, step).agents
  {}

  /** A submission queues a fresh job last, with its context alive, for a caller that waits or
      for one that only receives. */
  lemma SubmissionQueues(run: Run, k: nat, a: AgentId, j: JobId, detached: bool)
    requires IsRun(run) && k < |run.steps| && run.steps[k] == Submit(a, j, detached)
    ensures var before, after := AgentOf(run.states[k], a), AgentOf(run.states[k + 1], a);
      && j !in run.states[k].jobs && j in run.states[k + 1].jobs
      && after.queue.jobs == before.queue.jobs + [j] && after.submitted == before.submitted + [j]
      && after.started == before.started
    ensures j in run.states[k + 1].jobs &&
      var job := run.states[k + 1].jobs[j];
      job.agent == a && !job.ctxDone && job.sent == [] && (if detached then job.caller.Detached? else job.caller.Waiting?)
  {}

  /** A caller that waits and sees its context done takes its job out of the queue if it is still
      there, and is then owed the context's error; otherwise the job goes on. */
  lemma CancellationRemoves(run: Run, k: nat, j: JobId)
    requires IsRun(run) && k < |run.steps| && run.steps[k] == CancelPending(j)
    ensures j in run.states[k].jobs && j in run.states[k + 1].jobs
    ensures var a := run.states[k].jobs[j].agent; var before, after := AgentOf(run.states[k], a), AgentOf(run.states[k + 1], a);
      && run.states[k].jobs[j].ctxDone && run.states[k + 1].jobs[j].caller.Draining?
      && after.started == before.started && after.workers == before.workers
      && (if j in before.queue.jobs then
            (forall i :: i in after.queue.jobs <==> i in before.queue.jobs && i != j) && run.states[k + 1].jobs[j].channel == Some(ContextError)
          else after.queue == before.queue && run.states[k + 1].jobs[j].sent == run.states[k].jobs[j].sent)
  {
    hide Inv, Apply, Enabled;
    RunKeepsInv(run, k);
    CancellationEffect(run.states[k], j);
  }

  lemma CancellationEffect(s: State, j: JobId)
    requires Inv(s) && Enabled(s, CancelPending(j))
    ensures j in s.jobs && s.jobs[j].ctxDone
    ensures var s' := Apply(s, CancelPending(j)); var a := s.jobs[j].agent; var before, after := AgentOf(s, a), AgentOf(s', a);
      && j in s'.jobs && s'.jobs[j].caller.Draining?
      && after.started == before.started && after.workers == before.workers
      && (if j in before.queue.jobs then
            (forall i :: i in after.queue.jobs <==> i in before.queue.jobs && i != j) && s'.jobs[j].channel == Some(ContextError)
          else after.queue == before.queue && s'.jobs[j].sent == s.jobs[j].sent)
  {
    hide Inv, AgentInv, JobInv, Without;
    JobAt(s, j);
    var agent := s.agents[s.jobs[j].agent];
    QueueIsDistinct(s.jobs, s.jobs[j].agent, agent);
    WithoutFacts(agent.queue.jobs, j);
    CancellerIsDone(agent, j, s.jobs[j]);
    if j in agent.queue.jobs { UnsentIsEmpty(agent, j, s.jobs[j]); }
  }

  lemma CancellerIsDone(agent: Agent, j: JobId, job: Job)
    requires JobInv(agent, j, job) && job.caller.Cancelling?
    ensures job.ctxDone
  {}

  lemma QueueIsDistinct(jobs: Jobs, a: AgentId, agent: Agent)
    requires AgentInv(jobs, a, agent)
    ensures Distinct(agent.queue.jobs) && forall j :: j in agent.queue.jobs ==> j in jobs && jobs[j].fate.Queued?
  {
    hide Survivors;
  }

  lemma UnsentIsEmpty(agent: Agent, j: JobId, job: Job)
    requires JobInv(agent, j, job) && job.fate.Queued?
    ensures job.channel.None?
  {}

  // ---------------------------------------------------------------------------
  // The callback

  lemma OutcomeStays(s: State, step: Step, j: JobId)
    requires Inv(s) && Enabled(s, step) && j in s.jobs && s.jobs[j].outcome.Some?
    ensures j in Apply(s, step).jobs && Apply(s, step).jobs[j].outcome == s.jobs[j].outcome
  {
    hide Inv, AgentInv, Finish;
    if step.Return? {
      InvAt(s, step.agent);
      RunningIsOpen(s.jobs, step.agent, s.agents[step.agent], step.worker);
    }
    FinishKeepsOutcome(s.jobs[j], ContextError);
    if step.Send? { FinishKeepsOutcome(s.jobs[j], s.agents[step.agent].workers[step.worker].outcome); }
  }

  lemma RunningIsOpen(jobs: Jobs, a: AgentId, agent: Agent, w: nat)
    requires AgentInv(jobs, a, agent) && w < |agent.workers| && agent.workers[w].Running?
    ensures agent.workers[w].job in jobs && jobs[agent.workers[w].job].outcome.None?
  {
    hide Survivors, InOrder, OneWorker, ListsInv;
    assert WorkerInv(jobs, a, agent.workers[w]);
  }

  lemma FinishKeepsOutcome(job: Job, r: Outcome)
    ensures Finish(job, r).outcome == job.outcome
    ensures Finish(job.(caller := Draining, fate := Removed), r).outcome == job.outcome
  {}

  lemma {:induction false} OutcomeKept(run: Run, i: nat, k: nat, j: JobId)
    requires IsRun(run) && i <= k < |run.states| && j in run.states[i].jobs && run.states[i].jobs[j].outcome.Some?
    ensures j in run.states[k].jobs && run.states[k].jobs[j].outcome == run.states[i].jobs[j].outcome
    decreases k
  {
    hide Inv, Apply, Enabled;
    if i < k {
      OutcomeKept(run, i, k - 1, j);
      RunKeepsInv(run, k - 1);
      OutcomeStays(run.states[k - 1], run.steps[k - 1], j);
    }
  }

  /** What a callback returns, be it an error or a panic, is what its job is sent, once. */
  lemma ReturnIsReported(run: Run, k: nat, m: nat, a: AgentId, w: nat, outcome: Outcome)
    requires IsRun(run) && k < m < |run.states| && run.steps[k] == Return(a, w, outcome)
    ensures HasWorker(run.states[k], a, w) && run.states[k].agents[a].workers[w].Running?
    ensures var j := run.states[k].agents[a].workers[w].job;
      && j in run.states[m].jobs
      && (run.states[m].jobs[j].sent == [] || run.states[m].jobs[j].sent == [outcome])
      && (run.states[m].jobs[j].caller.Left? ==> run.states[m].jobs[j].received == [outcome])
  {
    var j := run.states[k].agents[a].workers[w].job;
    assert run.states[k + 1].jobs[j].outcome == Some(outcome);
    hide Apply, Enabled;
    OutcomeKept(run, k + 1, m, j);
    RunKeepsInv(run, m);
    JobAt(run.states[m], j);
    RunKeepsInv(run, k);
    hide IsRun, AgentInv, Survivors;
    OutcomeMeansStarted(run.states[m], j);
  }

  lemma OutcomeMeansStarted(s: State, j: JobId)
    requires Inv(s) && j in s.jobs && s.jobs[j].outcome.Some?
    ensures s.jobs[j].sent == [] || s.jobs[j].sent == [s.jobs[j].outcome.value]
    ensures s.jobs[j].caller.Left? ==> s.jobs[j].received == s.jobs[j].sent != []
  {
    hide AgentInv;
    assert JobInv(s.agents[s.jobs[j].agent], j, s.jobs[j]);
  }
}
