/**
 * The crawler's scheduler: a map from document id to the jobs requested for it and not yet
 * crawled, a map of per-id priorities, and a priority queue of ids to crawl. The queue itself
 * (`AsyncPriorityQueue`) is not part of this model: the scheduler is modelled with the log of
 * what it asks of the queue, and `crawl` takes the id the queue hands out as a parameter.
 */
module Crawler {
  import opened Wrappers

  /** One request to re-evaluate a document: the optional job info and the time it was made. */
  datatype Job<Info> = Job(info: Option<Info>, timestamp: int)

  /** What the scheduler asks of its queue. */
  datatype QueueOp = Push(id: string, priority: int) | RemoveId(id: string) | Pop(id: string)

  datatype SchedulerState<Info> = SchedulerState(
    queue: seq<QueueOp>,
    jobs: map<string, seq<Job<Info>>>,
    prioritySettings: map<string, int>)

  /** The calls the scheduler takes. `Crawl(id)` is a crawl whose pop returned `id`. */
  datatype Call<Info> =
    | RequestRevaluate(id: string, info: Option<Info>, now: int)
    | SetPriority(id: string, priority: int)
    | Remove(id: string)
    | Crawl(id: string)

  /** `prioritySettings.get(id) ?? 0`. */
  function PriorityOf(settings: map<string, int>, id: string): int {
    if id in settings then settings[id] else 0
  }

  /** `jobs.get(id) ?? []`. */
  function JobsOf<Info>(jobs: map<string, seq<Job<Info>>>, id: string): seq<Job<Info>> {
    if id in jobs then jobs[id] else []
  }

  /** Every job list the scheduler holds has at least one job. */
  predicate NoEmptyLists<Info>(s: SchedulerState<Info>) {
    forall id :: id in s.jobs ==> s.jobs[id] != []
  }

  /** The state after one call, and the jobs a crawl hands to the crawler (`None` when it does not call it). */
  function Step<Info>(s: SchedulerState<Info>, c: Call<Info>): (r: (SchedulerState<Info>, Option<seq<Job<Info>>>))
    ensures NoEmptyLists(s) ==> NoEmptyLists(r.0)
    ensures c.Crawl? ==> r.0.jobs == s.jobs - {c.id} && (r.1.Some? <==> JobsOf(s.jobs, c.id) != [])
    ensures !c.Crawl? ==> r.1.None?
  {
    match c
    case RequestRevaluate(id, info, now) =>
      (s.(queue := s.queue + [Push(id, PriorityOf(s.prioritySettings, id))],
          jobs := s.jobs[id := JobsOf(s.jobs, id) + [Job(info, now)]]), None)
    case SetPriority(id, p) =>
      (s.(prioritySettings := s.prioritySettings[id := p]), None)
    case Remove(id) =>
      (s.(queue := s.queue + [RemoveId(id)], jobs := s.jobs - {id}), None)
    case Crawl(id) =>
      var taken := JobsOf(s.jobs, id);
      (s.(queue := s.queue + [Pop(id)], jobs := s.jobs - {id}), if |taken| > 0 then Some(taken) else None)
  }

  /** The state after a run of calls. */
  function Run<Info>(s: SchedulerState<Info>, calls: seq<Call<Info>>): SchedulerState<Info>
    decreases |calls|
  {
    if calls == [] then s else Step(Run(s, calls[..|calls| - 1]), calls[|calls| - 1]).0
  }

  /**
   * The jobs requested for `id` during `calls` since the last `remove` or crawl of `id`: an
   * independent description of the job list.
   */
  function Pending<Info>(calls: seq<Call<Info>>, id: string): seq<Job<Info>>
    decreases |calls|
  {
    if calls == [] then []
    else
      var c := calls[|calls| - 1];
      var before := Pending(calls[..|calls| - 1], id);
      match c
      case RequestRevaluate(i, info, now) => if i == id then before + [Job(info, now)] else before
      case SetPriority(_, _) => before
      case Remove(i) => if i == id then [] else before
      case Crawl(i) => if i == id then [] else before
  }

  /**
   * From the empty scheduler, the job list of every id is exactly the jobs requested for it since
   * it was last removed or crawled, in request order; an id has an entry exactly when it has such
   * jobs.
   */
  lemma {:induction false} JobsArePending<Info>(calls: seq<Call<Info>>, id: string)
    ensures var s := Run(SchedulerState([], map[], map[]), calls);
      JobsOf(s.jobs, id) == Pending(calls, id) && (id in s.jobs <==> Pending(calls, id) != [])
    decreases |calls|
  {
    if calls != [] {
      var init := calls[..|calls| - 1];
      JobsArePending(init, id);
      RunKeepsNoEmptyLists(init);
    }
  }

  lemma {:induction false} RunKeepsNoEmptyLists<Info>(calls: seq<Call<Info>>)
    ensures NoEmptyLists(Run(SchedulerState([], map[], map[]), calls))
    decreases |calls|
  {
    if calls != [] {
      RunKeepsNoEmptyLists(calls[..|calls| - 1]);
    }
  }

  /**
   * A crawl after `calls` hands the crawler exactly the jobs pending for the popped id, in
   * request order, and calls it only when there is one; afterwards the id has no jobs.
   */
  lemma CrawlHandsPending<Info>(calls: seq<Call<Info>>, id: string)
    ensures var r := Step(Run(SchedulerState([], map[], map[]), calls), Crawl(id));
      && (r.1.Some? <==> Pending(calls, id) != [])
      && (r.1.Some? ==> r.1.value == Pending(calls, id))
      && id !in r.0.jobs
  {
    JobsArePending(calls, id);
  }

  /** Each queue push uses the priority set last for that id before the request, or 0 if none was set. */
  lemma PushUsesPriority<Info>(s: SchedulerState<Info>, id: string, info: Option<Info>, now: int, p: int)
    ensures var t := Step(Step(s, SetPriority(id, p)).0, RequestRevaluate(id, info, now)).0;
      t.queue == s.queue + [Push(id, p)]
    ensures id !in s.prioritySettings ==>
      Step(s, RequestRevaluate(id, info, now)).0.queue == s.queue + [Push(id, 0)]
  {
  }

  class CrawlerScheduler<Info> {
    var queue: seq<QueueOp>
    var jobs: map<string, seq<Job<Info>>>
    var prioritySettings: map<string, int>

    function State(): SchedulerState<Info>
      reads this
    {
      SchedulerState(queue, jobs, prioritySettings)
    }

    constructor()
      ensures State() == SchedulerState([], map[], map[])
    {
      queue := [];
      jobs := map[];
      prioritySettings := map[];
    }

    /**
     * `requestRevaluate(id, jobInfo)`: queues `id` at its priority (0 unless set) and appends one
     * job stamped `now` to its list, keeping the jobs already there.
     */
    method RequestRevaluate(id: string, info: Option<Info>, now: int)
      modifies this
      ensures queue == old(queue) + [Push(id, PriorityOf(old(prioritySettings), id))]
      ensures jobs == old(jobs)[id := JobsOf(old(jobs), id) + [Job(info, now)]]
      ensures prioritySettings == old(prioritySettings)
      ensures State() == Step(old(State()), Call.RequestRevaluate(id, info, now)).0
    {
      var priority := PriorityOf(prioritySettings, id);
      queue := queue + [Push(id, priority)];
      var list := JobsOf(jobs, id);
      list := list + [Job(info, now)];
      jobs := jobs[id := list];
    }

    /** `setPriority(id, priority)`: only the priority settings change. */
    method SetPriority(id: string, priority: int)
      modifies this
      ensures prioritySettings == old(prioritySettings)[id := priority]
      ensures queue == old(queue) && jobs == old(jobs)
      ensures State() == Step(old(State()), Call.SetPriority(id, priority)).0
    {
      prioritySettings := prioritySettings[id := priority];
    }

    /** `remove(id)`: takes `id` out of the queue and drops its jobs. */
    method Remove(id: string)
      modifies this
      ensures queue == old(queue) + [RemoveId(id)]
      ensures jobs == old(jobs) - {id}
      ensures prioritySettings == old(prioritySettings)
      ensures State() == Step(old(State()), Call.Remove(id)).0
    {
      queue := queue + [RemoveId(id)];
      jobs := jobs - {id};
    }

    /**
     * `crawl(signal)` after the queue handed out `popped`: takes the id's job list out of the map
     * and returns what is passed to the crawler, which is called only for a non-empty list.
     */
    method Crawl(popped: string) returns (handed: Option<seq<Job<Info>>>)
      modifies this
      ensures queue == old(queue) + [Pop(popped)]
      ensures jobs == old(jobs) - {popped}
      ensures prioritySettings == old(prioritySettings)
      ensures handed.Some? <==> JobsOf(old(jobs), popped) != []
      ensures handed.Some? ==> handed.value == JobsOf(old(jobs), popped)
      ensures (State(), handed) == Step(old(State()), Call.Crawl(popped))
    {
      queue := queue + [Pop(popped)];
      var taken := JobsOf(jobs, popped);
      jobs := jobs - {popped};
      if |taken| > 0 {
        return Some(taken);
      }
      return None;
    }
  }
}
