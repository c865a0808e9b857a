/** The turn queue as the object it is: agents are created on demand, their job lists
    are appended to, shifted and compacted in place. Each method is one region under
    the mutex and does to one agent what the transition system's step does. */
module TurnQueueObjects {
  import opened Common
  import opened TurnQueueModel

  datatype SubmitError = AgentIdRequired | TurnIdRequired | TurnFuncRequired

  /** A job and its result channel of capacity one. */
  class TurnJob {
    const agentId: string
    const turnId: string
    var channel: Option<Outcome>

    constructor (agentId: string, turnId: string)
      ensures this.agentId == agentId && this.turnId == turnId && channel == None
    {
      this.agentId := agentId;
      this.turnId := turnId;
      channel := None;
    }

    /** Sends unless the channel is full. */
    method Finish(outcome: Outcome)
      modifies this
      ensures channel == if old(channel).None? then Some(outcome) else old(channel)
    {
      if channel.None? { channel := Some(outcome); }
    }
  }

  class AgentTurns {
    var jobs: seq<TurnJob>
    var running: bool

    constructor ()
      ensures jobs == [] && !running
    {
      jobs := [];
      running := false;
    }

    function View(): Turns<TurnJob>
      reads this
    {
      Turns(jobs, running)
    }

    /** The worker's region: the first job, or none and the worker is no longer
        running. */
    method TakeNext() returns (job: TurnJob?)
      modifies this
      ensures View() == Taken(old(View())).0
      ensures Taken(old(View())).1 == if job == null then None else Some(job)
    {
      if |jobs| == 0 {
        running := false;
        return null;
      }
      job := jobs[0];
      jobs := jobs[1..];
    }

    /** Where a job waits, or the length of the list. */
    method PositionOf(job: TurnJob) returns (i: nat)
      ensures i <= |jobs| && job !in jobs[..i] && (i < |jobs| ==> jobs[i] == job)
    {
      i := 0;
      while i < |jobs| && jobs[i] != job
        invariant i <= |jobs| && job !in jobs[..i]
      {
        i := i + 1;
      }
    }

    // Shifts the jobs after position i down by one.
    method RemoveAt(i: nat)
      requires i < |jobs|
      modifies this
      ensures jobs == old(jobs[..i] + jobs[i + 1..]) && running == old(running)
    {
      jobs := jobs[..i] + jobs[i + 1..];
    }
  }

  lemma {:induction false} WithoutAt<T>(list: seq<T>, i: nat)
    requires i < |list| && list[i] !in list[..i]
    ensures Without(list, list[i]) == list[..i] + list[i + 1..]
  {
    if i > 0 {
      assert list == [list[0]] + list[1..];
      assert list[0] in list[..i];
      assert list[1..][..i - 1] == list[..i][1..];
      WithoutAt(list[1..], i - 1);
      assert list[..i] == [list[0]] + list[1..][..i - 1];
    }
  }

  class TurnQueue {
    var agents: map<string, AgentTurns>

    constructor ()
      ensures Valid() && agents == map[]
    {
      agents := map[];
    }

    /** No two agents share a record, and every job waits at its own agent, once. */
    ghost predicate Valid()
      reads this, agents.Values
    {
      && (forall a, b :: a in agents && b in agents && a != b ==> agents[a] != agents[b])
      && (forall a :: a in agents ==> Distinct(agents[a].jobs) && (agents[a].jobs != [] ==> agents[a].running))
      && (forall a, i :: a in agents && 0 <= i < |agents[a].jobs| ==> agents[a].jobs[i].agentId == a)
    }

    ghost function TurnsOf(a: string): Turns<TurnJob>
      reads this, agents.Values
    {
      if a in agents then agents[a].View() else Turns([], false)
    }

    /** The record of an agent, created if it is new. */
    method AgentFor(id: string) returns (agent: AgentTurns)
      requires Valid()
      modifies this
      ensures Valid() && id in agents && agents[id] == agent
      ensures if id in old(agents) then agents == old(agents) else fresh(agent) && agents == old(agents)[id := agent]
      ensures forall a :: TurnsOf(a) == old(TurnsOf(a))
    {
      if id !in agents {
        agent := new AgentTurns();
        agents := agents[id := agent];
      }
      agent := agents[id];
    }

    /** The region in enqueue: the agent's record is created if it is new, the job is
        last in its list, and the caller must start a worker exactly if none ran. */
    method Append(job: TurnJob) returns (start: bool)
      requires Valid() && job !in TurnsOf(job.agentId).jobs
      modifies this, agents.Values
      ensures Valid()
      ensures (TurnsOf(job.agentId), start) == Appended(old(TurnsOf(job.agentId)), job)
      ensures forall a :: a != job.agentId ==> TurnsOf(a) == old(TurnsOf(a))
    {
      var agent := AgentFor(job.agentId);
      DistinctSnoc(agent.jobs, job);
      agent.jobs := agent.jobs + [job];
      start := !agent.running;
      if start {
        agent.running := true;
      }
    }

    /** Submit checks its arguments in this order and queues a fresh job. */
    method Submit(agentId: string, turnId: string, hasFunction: bool)
      returns (job: TurnJob?, error: Option<SubmitError>, start: bool)
      requires Valid()
      modifies this, agents.Values
      ensures Valid()
      ensures error == if agentId == "" then Some(AgentIdRequired)
                       else if turnId == "" then Some(TurnIdRequired)
                       else if !hasFunction then Some(TurnFuncRequired)
                       else None
      ensures error.Some? ==> job == null && !start && forall a :: TurnsOf(a) == old(TurnsOf(a))
      ensures error.None? ==> job != null && fresh(job) && job.agentId == agentId && job.turnId == turnId && job.channel == None
      ensures error.None? ==> (TurnsOf(agentId), start) == Appended(old(TurnsOf(agentId)), job)
      ensures error.None? ==> forall a :: a != agentId ==> TurnsOf(a) == old(TurnsOf(a))
    {
      if agentId == "" { return null, Some(AgentIdRequired), false; }
      if turnId == "" { return null, Some(TurnIdRequired), false; }
      if !hasFunction { return null, Some(TurnFuncRequired), false; }
      var created := new TurnJob(agentId, turnId);
      var s := Append(created);
      return created, None, s;
    }

    /** The region in work, for the worker of one agent: it takes the first job or retires,
        and the queue stays valid. */
    method Work(agentId: string) returns (job: TurnJob?)
      requires Valid() && agentId in agents
      modifies agents.Values
      ensures Valid() && agents == old(agents)
      ensures TurnsOf(agentId) == Taken(old(TurnsOf(agentId))).0
      ensures Taken(old(TurnsOf(agentId))).1 == if job == null then None else Some(job)
      ensures forall a :: a != agentId ==> TurnsOf(a) == old(TurnsOf(a))
    {
      ghost var before := agents[agentId].jobs;
      job := agents[agentId].TakeNext();
      assert agents[agentId].jobs == if before == [] then [] else before[1..];
    }

    /** Takes a job out of its agent's list if it is still waiting there and reports
        the context's error for it; a job that is not waiting is left alone. */
    method CancelPending(job: TurnJob)
      requires Valid()
      modifies agents.Values, job
      ensures Valid() && agents == old(agents)
      ensures TurnsOf(job.agentId).jobs == Without(old(TurnsOf(job.agentId).jobs), job)
      ensures TurnsOf(job.agentId).running == old(TurnsOf(job.agentId).running)
      ensures forall a :: a != job.agentId ==> TurnsOf(a) == old(TurnsOf(a))
      ensures job.channel == if old(job in TurnsOf(job.agentId).jobs && job.channel.None?) then Some(ContextError) else old(job.channel)
    {
      if job.agentId !in agents {
        return;
      }
      hide Without, Distinct;
      var agent := agents[job.agentId];
      WithoutFacts(agent.jobs, job);
      var i := agent.PositionOf(job);
      if i == |agent.jobs| {
        assert agent.jobs[..i] == agent.jobs;
        return;
      }
      WithoutAt(agent.jobs, i);
      assert job in agent.jobs;
      agent.RemoveAt(i);
      job.Finish(ContextError);
      forall k | 0 <= k < |agent.jobs|
        ensures agent.jobs[k] in old(agent.jobs)
      {}
    }
  }
}
