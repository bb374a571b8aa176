/**
The background I/O service for one type of job: the main thread appends jobs under a lock, and a worker
takes the first one, processes it without the lock, and removes it when it has the lock again.
*/
module BackgroundJobs {

  datatype Worker<J> =
    | Idle                    // holds no job
    | Working(job: J)         // has read the first node's value and released the lock
    | Processed               // has done the job and not yet removed the node

  // `created` and `processed` are the history: all jobs ever created, and those processed, in order.
  datatype Service<J> = Service(jobs: seq<J>, pending: int, worker: Worker<J>, created: seq<J>, processed: seq<J>)

  datatype Event<J> = Create(job: J) | Take | Process | Finish

  ghost predicate Enabled<J>(s: Service<J>, e: Event<J>)
  {
    match e
    case Create(_) => true
    case Take => s.worker == Idle && s.jobs != []
    case Process => s.worker.Working?
    case Finish => s.worker == Processed && s.jobs != []
  }

  ghost function Next<J>(s: Service<J>, e: Event<J>): Service<J>
    requires Enabled(s, e)
  {
    match e
    case Create(job) => s.(jobs := s.jobs + [job], pending := s.pending + 1, created := s.created + [job])
    case Take => s.(worker := Working(s.jobs[0]))
    case Process => s.(worker := Processed, processed := s.processed + [s.worker.job])
    case Finish => s.(worker := Idle, jobs := s.jobs[1..], pending := s.pending - 1)
  }

  ghost predicate Inv<J>(s: Service<J>)
  {
    && s.pending == |s.jobs|
    && (s.worker == Idle ==> s.created == s.processed + s.jobs)
    && (s.worker.Working? ==> s.jobs != [] && s.worker.job == s.jobs[0] && s.created == s.processed + s.jobs)
    && (s.worker == Processed ==> s.jobs != [] && s.created == s.processed + s.jobs[1..])
  }

  lemma NextKeepsInv<J>(s: Service<J>, e: Event<J>)
    requires Inv(s) && Enabled(s, e)
    ensures Inv(Next(s, e))
  {
    match e
    case Create(job) =>
      assert (s.processed + s.jobs) + [job] == s.processed + (s.jobs + [job]);
      if s.worker == Processed {
        assert (s.jobs + [job])[1..] == s.jobs[1..] + [job];
        assert (s.processed + s.jobs[1..]) + [job] == s.processed + (s.jobs[1..] + [job]);
      }
    case Take =>
    case Process =>
      assert s.processed + s.jobs == (s.processed + [s.jobs[0]]) + s.jobs[1..];
    case Finish =>
  }

  ghost predicate Run<J>(states: seq<Service<J>>, events: seq<Event<J>>)
  {
    && |states| == |events| + 1 && states[0] == Service([], 0, Idle, [], [])
    && forall i :: 0 <= i < |events| ==> Enabled(states[i], events[i]) && states[i + 1] == Next(states[i], events[i])
  }

  lemma {:induction false} RunKeepsInv<J>(states: seq<Service<J>>, events: seq<Event<J>>, n: nat)
    requires Run(states, events) && n < |states|
    ensures Inv(states[n])
  {
    if n > 0 {
      RunKeepsInv(states, events, n - 1);
      assert states[n - 1 + 1] == states[n];
      NextKeepsInv(states[n - 1], events[n - 1]);
    }
  }

  /* In every run jobs are processed in the order they were created, each once; no more are pending than
     are left to process or just processed; and when none is pending all have been processed. */
  lemma JobsInOrder<J>(states: seq<Service<J>>, events: seq<Event<J>>, n: nat)
    requires Run(states, events) && n < |states|
    ensures var s := states[n];
            && s.processed <= s.created
            && |s.created| - |s.processed| <= s.pending <= |s.created| - |s.processed| + 1
            && (s.pending == 0 ==> s.processed == s.created)
  {
    RunKeepsInv(states, events, n);
  }
}
