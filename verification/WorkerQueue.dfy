/** task.go: a queue of jobs served by at most maxConcurrency goroutines. */
module WorkerQueues {
  import opened Words
  import opened DequeModel
  import opened Deques

  /** What one call of getJob, made under the lock, does to the queue and the counter. */
  function GetJobSpec<J>(queue: seq<J>, cur: int, max: int, newJob: Option<J>, delta: int): (seq<J>, int, Option<J>) {
    var q := queue + OneOf(newJob);
    if cur + delta >= max || q == [] then (q, cur + delta, None)
    else (q[1..], cur + delta + 1, Some(q[0]))
  }

  ghost predicate AllJobs<J>(items: seq<Item<Option<J>>>) {
    forall i :: 0 <= i < |items| ==> items[i].value.Some?
  }

  ghost function Jobs<J>(items: seq<Item<Option<J>>>): seq<J>
    requires AllJobs(items)
  {
    seq(|items|, i requires 0 <= i < |items| => items[i].value.value)
  }

  lemma JobsPushed<J>(items: seq<Item<Option<J>>>, a: nat, job: J)
    requires AllJobs(items)
    ensures var all := With(items, |items|, Item(a, Some(job)));
      AllJobs(all) && Jobs(all) == Jobs(items) + [job]
  {
  }

  lemma JobsPopped<J>(items: seq<Item<Option<J>>>)
    requires AllJobs(items) && items != []
    ensures AllJobs(Without(items, 0)) && Jobs(Without(items, 0)) == Jobs(items)[1..]
    ensures items[0].value == Some(Jobs(items)[0])
  {
  }

  lemma JobsSize<J>(items: seq<Item<Option<J>>>)
    requires AllJobs(items)
    ensures |Jobs(items)| == |items|
  {
  }

  lemma RemovedFirst<T>(s: Store<T>)
    requires s.items != []
    ensures Removed(s, 0).items == Without(s.items, 0)
  {
  }

  /** A nil asyncJob is None; the deque returns it when it is empty. */
  class WorkerQueue<J> {
    const q: Deque<Option<J>>
    const maxConcurrency: int
    var curConcurrency: int

    ghost predicate Valid()
      reads this, q
    {
      && q.Valid() && q.template.value == None
      && AllJobs(q.Items())
    }

    ghost function Queue(): seq<J>
      reads this, q
      requires Valid()
    {
      Jobs(q.Items())
    }

    constructor (maxConcurrency: int)
      ensures Valid() && fresh(q) && Queue() == [] && curConcurrency == 0 && this.maxConcurrency == maxConcurrency
    {
      q := new Deque.Zero(None);
      this.maxConcurrency, curConcurrency := maxConcurrency, 0;
    }

    method GetJob(newJob: Option<J>, delta: int) returns (job: Option<J>)
      requires Valid() && (newJob.Some? ==> CanAllocate(q.Model()))
      modifies this, q
      ensures Valid() && (Queue(), curConcurrency, job)
                      == GetJobSpec(old(Queue()), old(curConcurrency), maxConcurrency, newJob, delta)
    {
      hide Wf, Jobs, AllJobs, With, Without, Threaded, ItemsOf, Removed;
      assert Queue() + [] == Queue();
      if newJob.Some? {
        JobsPushed(q.Items(), NextAddr(q.Model()), newJob.value);
        var _ := q.PushBack(newJob);
      }
      curConcurrency := curConcurrency + delta;
      if curConcurrency >= maxConcurrency {
        return None;
      }
      ghost var items := q.Items();
      JobsSize(items);
      if items != [] { JobsPopped(items); RemovedFirst(q.Model()); }
      job := q.PopFront();
      if job.None? {
        return None;
      }
      curConcurrency := curConcurrency + 1;
    }
  }
}
