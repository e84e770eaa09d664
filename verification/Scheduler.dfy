/** task.go as a concurrent protocol: goroutines push jobs and workers run them, in every
    interleaving of Push, the end of a job, and the getJob call that follows it. */
module Schedulers {
  import opened Words
  import opened WorkerQueues

  /** A goroutine started by Push. */
  datatype Worker<J> = Running(job: J) | Asking | Exited

  /** `pushed`, `started` and `finished` record history. */
  datatype State<J> = State(
    queue: seq<J>, cur: int, max: int, workers: seq<Worker<J>>,
    pushed: seq<J>, started: seq<J>, finished: seq<J>)

  datatype Event<J> =
    | Push(job: Option<J>)      // a goroutine calls Push; None is a nil job
    | Finish(worker: nat)       // the job of this worker returns
    | Ask(worker: nat)          // this worker calls getJob(nil, -1)

  function Init<J>(max: int): State<J> { State([], 0, max, [], [], [], []) }

  function Next<J>(s: State<J>, e: Event<J>): State<J> {
    match e
    case Push(newJob) =>
      var (queue, cur, job) := GetJobSpec(s.queue, s.cur, s.max, newJob, 0);
      s.(queue := queue, cur := cur, pushed := s.pushed + OneOf(newJob), started := s.started + OneOf(job),
         workers := if job.Some? then s.workers + [Running(job.value)] else s.workers)
    case Finish(w) =>
      if w < |s.workers| && s.workers[w].Running? then
        s.(workers := s.workers[w := Asking], finished := s.finished + [s.workers[w].job])
      else s
    case Ask(w) =>
      if w < |s.workers| && s.workers[w].Asking? then
        var (queue, cur, job) := GetJobSpec(s.queue, s.cur, s.max, None, -1);
        s.(queue := queue, cur := cur, started := s.started + OneOf(job),
           workers := s.workers[w := if job.Some? then Running(job.value) else Exited])
      else s
  }

  function Run<J>(s: State<J>, events: seq<Event<J>>): State<J>
    decreases |events|
  {
    if events == [] then s else Run(Next(s, events[0]), events[1..])
  }

  // ---------------------------------------------------------------- counting workers

  function Live<J>(workers: seq<Worker<J>>): nat {
    if workers == [] then 0
    else Live(workers[..|workers| - 1]) + if workers[|workers| - 1].Exited? then 0 else 1
  }

  function JobOf<J>(w: Worker<J>): seq<J> { if w.Running? then [w.job] else [] }

  /** The jobs that are running. */
  function Current<J>(workers: seq<Worker<J>>): seq<J> {
    if workers == [] then [] else Current(workers[..|workers| - 1]) + JobOf(workers[|workers| - 1])
  }

  ghost function Jobs<J>(workers: seq<Worker<J>>): multiset<J> { multiset(Current(workers)) }

  lemma WorkersAppend<J>(workers: seq<Worker<J>>, w: Worker<J>)
    ensures Live(workers + [w]) == Live(workers) + if w.Exited? then 0 else 1
    ensures Current(workers + [w]) == Current(workers) + JobOf(w)
  {
    assert (workers + [w])[..|workers|] == workers;
  }

  lemma {:induction false} LiveUpdate<J>(workers: seq<Worker<J>>, i: nat, w: Worker<J>)
    requires i < |workers|
    ensures Live(workers[i := w])
         == Live(workers) - (if workers[i].Exited? then 0 else 1) + (if w.Exited? then 0 else 1)
    decreases |workers|
  {
    var n := |workers| - 1;
    if i == n {
      assert workers[i := w][..n] == workers[..n];
    } else {
      LiveUpdate(workers[..n], i, w);
      assert workers[i := w][..n] == workers[..n][i := w];
    }
  }

  lemma JobsLast<J>(workers: seq<Worker<J>>)
    requires workers != []
    ensures Jobs(workers) == Jobs(workers[..|workers| - 1]) + multiset(JobOf(workers[|workers| - 1]))
  {
  }

  lemma Regroup<J>(a: multiset<J>, b: multiset<J>, c: multiset<J>, x: multiset<J>, y: multiset<J>)
    requires a + x == b + y
    ensures (a + c) + x == (b + c) + y
  {
    assert (a + c) + x == (a + x) + c;
    assert (b + c) + y == (b + y) + c;
  }

  lemma {:induction false} JobsUpdate<J>(workers: seq<Worker<J>>, i: nat, w: Worker<J>)
    requires i < |workers|
    ensures Jobs(workers[i := w]) + multiset(JobOf(workers[i])) == Jobs(workers) + multiset(JobOf(w))
    decreases |workers|
  {
    hide JobOf;
    var n := |workers| - 1;
    var now := workers[i := w];
    JobsLast(workers);
    JobsLast(now);
    if i == n {
      assert now[..n] == workers[..n];
    } else {
      JobsUpdate(workers[..n], i, w);
      assert now[..n] == workers[..n][i := w];
      assert now[n] == workers[n] && workers[..n][i] == workers[i];
      Regroup(Jobs(now[..n]), Jobs(workers[..n]), multiset(JobOf(workers[n])),
              multiset(JobOf(workers[i])), multiset(JobOf(w)));
    }
  }

  lemma {:induction false} NoneLive<J>(workers: seq<Worker<J>>)
    ensures Live(workers) == 0 <==> forall i :: 0 <= i < |workers| ==> workers[i].Exited?
    ensures Live(workers) == 0 ==> Current(workers) == []
    decreases |workers|
  {
    if workers != [] {
      var init := workers[..|workers| - 1];
      NoneLive(init);
      assert forall i :: 0 <= i < |init| ==> init[i] == workers[i];
      assert workers[|workers| - 1].Exited? || Live(workers) > 0;
    }
  }

  /** With one live worker, the running job is that worker's. */
  lemma {:induction false} SoleWorker<J>(workers: seq<Worker<J>>, i: nat)
    requires i < |workers| && !workers[i].Exited? && Live(workers) == 1
    ensures Current(workers) == JobOf(workers[i])
    decreases |workers|
  {
    var n := |workers| - 1;
    if i == n {
      NoneLive(workers[..n]);
    } else {
      assert workers[..n][i] == workers[i];
      NoneLive(workers[..n]);
      SoleWorker(workers[..n], i);
    }
  }

  // ---------------------------------------------------------------- no job is stranded

  /** The counter is the number of live workers, and jobs wait only when all slots are taken. */
  ghost predicate CountInv<J>(s: State<J>) {
    s.cur == Live(s.workers) && s.cur <= s.max && (s.queue != [] ==> s.cur == s.max)
  }

  /** Jobs start in the order they were pushed. */
  ghost predicate OrderInv<J>(s: State<J>) { s.started + s.queue == s.pushed }

  /** Every job started is running or has finished, once. */
  ghost predicate OnceInv<J>(s: State<J>) {
    multiset(s.finished) + Jobs(s.workers) == multiset(s.started)
  }

  lemma PushCount<J>(s: State<J>, newJob: Option<J>)
    requires CountInv(s) && s.max >= 1
    ensures CountInv(Next(s, Push(newJob)))
  {
    hide Live;
    if s.cur < s.max {
      assert [] + OneOf(newJob) == OneOf(newJob);
      if newJob.Some? { WorkersAppend(s.workers, Running(newJob.value)); }
    }
  }

  lemma FinishCount<J>(s: State<J>, w: nat)
    requires CountInv(s)
    ensures CountInv(Next(s, Event<J>.Finish(w)))
  {
    hide Live;
    if w < |s.workers| && s.workers[w].Running? { LiveUpdate(s.workers, w, Asking); }
  }

  lemma AskCount<J>(s: State<J>, w: nat)
    requires CountInv(s)
    ensures CountInv(Next(s, Event<J>.Ask(w)))
  {
    hide Live;
    if w < |s.workers| && s.workers[w].Asking? {
      assert s.queue + [] == s.queue;
      LiveUpdate(s.workers, w, if s.queue != [] then Running(s.queue[0]) else Exited);
    }
  }

  lemma NextCountInv<J>(s: State<J>, e: Event<J>)
    requires CountInv(s) && s.max >= 1
    ensures CountInv(Next(s, e))
  {
    hide CountInv, Next;
    match e
    case Push(newJob) => PushCount(s, newJob);
    case Finish(w) => FinishCount(s, w);
    case Ask(w) => AskCount(s, w);
  }

  lemma GetJobOrder<J>(queue: seq<J>, cur: int, max: int, newJob: Option<J>, delta: int)
    ensures var (q, _, job) := GetJobSpec(queue, cur, max, newJob, delta);
      OneOf(job) + q == queue + OneOf(newJob)
  {
  }

  lemma NextOrderInv<J>(s: State<J>, e: Event<J>)
    requires OrderInv(s)
    ensures OrderInv(Next(s, e))
  {
    hide GetJobSpec;
    match e
    case Push(newJob) =>
      var (q, _, job) := GetJobSpec(s.queue, s.cur, s.max, newJob, 0);
      GetJobOrder(s.queue, s.cur, s.max, newJob, 0);
      assert (s.started + OneOf(job)) + q == s.started + (OneOf(job) + q);
      assert s.started + (s.queue + OneOf(newJob)) == s.pushed + OneOf(newJob);
    case Finish(w) =>
    case Ask(w) =>
      var (q, _, job) := GetJobSpec(s.queue, s.cur, s.max, None, -1);
      GetJobOrder(s.queue, s.cur, s.max, None, -1);
      assert (s.started + OneOf(job)) + q == s.started + (OneOf(job) + q);
      assert s.queue + OneOf<J>(None) == s.queue;
  }

  lemma Shift<J>(finished: multiset<J>, a: multiset<J>, b: multiset<J>, x: multiset<J>, y: multiset<J>)
    requires a + x == b + y
    ensures (finished + x) + a == (finished + b) + y
  {
    assert (finished + x) + a == finished + (a + x);
    assert (finished + b) + y == finished + (b + y);
  }

  lemma FinishOnce<J>(s: State<J>, w: nat)
    requires OnceInv(s) && w < |s.workers| && s.workers[w].Running?
    ensures OnceInv(Next(s, Event<J>.Finish(w)))
  {
    hide Jobs;
    var now := s.workers[w := Asking];
    JobsUpdate(s.workers, w, Asking);
    assert JobOf(Worker<J>.Asking) == [] && JobOf(s.workers[w]) == [s.workers[w].job];
    assert Jobs(now) + multiset([s.workers[w].job]) == Jobs(s.workers) + multiset([]);
    assert multiset(s.finished + [s.workers[w].job]) == multiset(s.finished) + multiset([s.workers[w].job]);
    Shift(multiset(s.finished), Jobs(now), Jobs(s.workers), multiset([s.workers[w].job]), multiset{});
  }

  lemma AskOnce<J>(s: State<J>, w: nat)
    requires OnceInv(s) && w < |s.workers| && s.workers[w].Asking?
    ensures OnceInv(Next(s, Event<J>.Ask(w)))
  {
    hide Jobs, GetJobSpec;
    var (_, _, job) := GetJobSpec(s.queue, s.cur, s.max, None, -1);
    var last := if job.Some? then Running(job.value) else Exited;
    JobsUpdate(s.workers, w, last);
    assert JobOf(s.workers[w]) == [] && JobOf(last) == OneOf(job);
    assert Jobs(s.workers[w := last]) + multiset([]) == Jobs(s.workers) + multiset(OneOf(job));
    assert multiset(s.started + OneOf(job)) == multiset(s.started) + multiset(OneOf(job));
    Shift(multiset(s.finished), Jobs(s.workers[w := last]), Jobs(s.workers), multiset{}, multiset(OneOf(job)));
  }

  lemma NextOnceInv<J>(s: State<J>, e: Event<J>)
    requires OnceInv(s)
    ensures OnceInv(Next(s, e))
  {
    hide GetJobSpec, Current;
    match e
    case Push(newJob) =>
      var (_, _, job) := GetJobSpec(s.queue, s.cur, s.max, newJob, 0);
      if job.Some? { WorkersAppend(s.workers, Running(job.value)); }
    case Finish(w) =>
      if w < |s.workers| && s.workers[w].Running? { FinishOnce(s, w); }
    case Ask(w) =>
      if w < |s.workers| && s.workers[w].Asking? { AskOnce(s, w); }
  }

  ghost predicate Inv<J>(s: State<J>) { CountInv(s) && OrderInv(s) && OnceInv(s) }

  lemma {:induction false} RunInv<J>(s: State<J>, events: seq<Event<J>>)
    requires Inv(s) && s.max >= 1
    ensures Inv(Run(s, events)) && Run(s, events).max == s.max
    decreases |events|
  {
    hide CountInv, OrderInv, OnceInv;
    if events != [] {
      NextCountInv(s, events[0]);
      NextOrderInv(s, events[0]);
      NextOnceInv(s, events[0]);
      RunInv(Next(s, events[0]), events[1..]);
    }
  }

  /** Over every interleaving: the counter is the number of live workers and stays between 0
      and the limit; a waiting job means that every slot is taken; jobs start in the order in
      which they were pushed, and every one that started is running or finished, exactly once. */
  lemma NoJobIsStranded<J>(max: int, events: seq<Event<J>>)
    requires max >= 1
    ensures var s := Run(Init<J>(max), events);
      && 0 <= s.cur == Live(s.workers) <= max
      && (s.queue != [] ==> Live(s.workers) == max)
      && s.started + s.queue == s.pushed
      && multiset(s.finished) + Jobs(s.workers) == multiset(s.started)
  {
    assert Inv(Init<J>(max));
    RunInv(Init<J>(max), events);
  }

  /** The limit must be positive: otherwise no job is ever started. */
  lemma {:induction false} NoSlotsNoWork<J>(s: State<J>, events: seq<Event<J>>)
    requires s.max <= 0 <= s.cur && s.workers == [] && s.started == []
    ensures Run(s, events).started == []
    decreases |events|
  {
    if events != [] {
      NoSlotsNoWork(Next(s, events[0]), events[1..]);
    }
  }

  // ---------------------------------------------------------------- one at a time

  /** With one slot, as every connection's write queue has, jobs finish in the order pushed:
      finished, running and waiting jobs together are the pushed sequence. */
  ghost predicate InOrder<J>(s: State<J>) { s.finished + Current(s.workers) == s.started }

  lemma PushInOrder<J>(s: State<J>, newJob: Option<J>)
    requires CountInv(s) && InOrder(s) && s.max == 1
    ensures InOrder(Next(s, Push(newJob)))
  {
    hide Live, Current;
    if s.cur < s.max {
      NoneLive(s.workers);
      assert [] + OneOf(newJob) == OneOf(newJob);
      if newJob.Some? { WorkersAppend(s.workers, Running(newJob.value)); }
    }
  }

  lemma OneLive<J>(workers: seq<Worker<J>>, w: nat, now: Worker<J>)
    requires w < |workers| && !workers[w].Exited? && Live(workers) <= 1
    ensures Live(workers) == 1 && Current(workers) == JobOf(workers[w]) && Current(workers[w := now]) == JobOf(now)
  {
    hide Live, Current;
    LiveUpdate(workers, w, now);
    NoneLive(workers);
    SoleWorker(workers, w);
    if now.Exited? {
      NoneLive(workers[w := now]);
    } else {
      SoleWorker(workers[w := now], w);
    }
  }

  lemma FinishInOrder<J>(s: State<J>, w: nat)
    requires CountInv(s) && InOrder(s) && s.max == 1
    ensures InOrder(Next(s, Event<J>.Finish(w)))
  {
    hide Live, Current;
    if w < |s.workers| && s.workers[w].Running? { OneLive(s.workers, w, Asking); }
  }

  lemma AskInOrder<J>(s: State<J>, w: nat)
    requires CountInv(s) && InOrder(s) && s.max == 1
    ensures InOrder(Next(s, Event<J>.Ask(w)))
  {
    hide Live, Current;
    if w < |s.workers| && s.workers[w].Asking? {
      assert s.queue + [] == s.queue;
      OneLive(s.workers, w, if s.queue != [] then Running(s.queue[0]) else Exited);
    }
  }

  lemma NextInOrder<J>(s: State<J>, e: Event<J>)
    requires CountInv(s) && InOrder(s) && s.max == 1
    ensures InOrder(Next(s, e))
  {
    hide CountInv, InOrder, Next;
    match e
    case Push(newJob) => PushInOrder(s, newJob);
    case Finish(w) => FinishInOrder(s, w);
    case Ask(w) => AskInOrder(s, w);
  }

  lemma {:induction false} RunInOrder<J>(s: State<J>, events: seq<Event<J>>)
    requires CountInv(s) && OrderInv(s) && InOrder(s) && s.max == 1
    ensures var r := Run(s, events); CountInv(r) && OrderInv(r) && InOrder(r) && r.max == 1
    decreases |events|
  {
    hide CountInv, OrderInv, InOrder;
    if events != [] {
      NextCountInv(s, events[0]);
      NextOrderInv(s, events[0]);
      NextInOrder(s, events[0]);
      RunInOrder(Next(s, events[0]), events[1..]);
    }
  }

  lemma OneSlotIsSequential<J>(events: seq<Event<J>>)
    ensures var s := Run(Init<J>(1), events);
      && s.finished + Current(s.workers) + s.queue == s.pushed
      && |Current(s.workers)| <= 1
  {
    RunInOrder(Init<J>(1), events);
    var s := Run(Init<J>(1), events);
    CurrentAtMostLive(s.workers);
  }

  lemma {:induction false} CurrentAtMostLive<J>(workers: seq<Worker<J>>)
    ensures |Current(workers)| <= Live(workers)
  {
    if workers != [] {
      CurrentAtMostLive(workers[..|workers| - 1]);
    }
  }

  // ---------------------------------------------------------------- the queue drains

  predicate Enabled<J>(s: State<J>, e: Event<J>) {
    match e
    case Push(_) => false
    case Finish(w) => w < |s.workers| && s.workers[w].Running?
    case Ask(w) => w < |s.workers| && s.workers[w].Asking?
  }

  function WorkerSteps<J>(w: Worker<J>): nat { if w.Running? then 2 else if w.Asking? then 1 else 0 }

  function Steps<J>(workers: seq<Worker<J>>): nat {
    if workers == [] then 0 else Steps(workers[..|workers| - 1]) + WorkerSteps(workers[|workers| - 1])
  }

  /** How many more steps the workers will take if nothing more is pushed. */
  function Remaining<J>(s: State<J>): nat { 2 * |s.queue| + Steps(s.workers) }

  lemma {:induction false} StepsUpdate<J>(workers: seq<Worker<J>>, i: nat, w: Worker<J>)
    requires i < |workers|
    ensures Steps(workers[i := w]) == Steps(workers) - WorkerSteps(workers[i]) + WorkerSteps(w)
    decreases |workers|
  {
    var n := |workers| - 1;
    if i == n {
      assert workers[i := w][..n] == workers[..n];
    } else {
      StepsUpdate(workers[..n], i, w);
      assert workers[i := w][..n] == workers[..n][i := w];
    }
  }

  /** Every step a worker takes brings the end exactly one step closer. */
  lemma StepCounts<J>(s: State<J>, e: Event<J>)
    requires CountInv(s) && Enabled(s, e)
    ensures Remaining(Next(s, e)) == Remaining(s) - 1
  {
    hide Steps, Live;
    match e
    case Finish(w) => StepsUpdate(s.workers, w, Asking);
    case Ask(w) =>
      assert s.queue + [] == s.queue;
      StepsUpdate(s.workers, w, if s.queue != [] then Running(s.queue[0]) else Exited);
  }

  ghost predicate AllEnabled<J>(s: State<J>, events: seq<Event<J>>)
    decreases |events|
  {
    events == [] || (Enabled(s, events[0]) && AllEnabled(Next(s, events[0]), events[1..]))
  }

  lemma {:induction false} RunCounts<J>(s: State<J>, events: seq<Event<J>>)
    requires Inv(s) && s.max >= 1 && AllEnabled(s, events)
    ensures Remaining(Run(s, events)) == Remaining(s) - |events|
    ensures Run(s, events).pushed == s.pushed
    decreases |events|
  {
    hide Next, CountInv, OrderInv, OnceInv, Remaining, Enabled;
    if events != [] {
      StepCounts(s, events[0]);
      NextCountInv(s, events[0]);
      NextOrderInv(s, events[0]);
      NextOnceInv(s, events[0]);
      NothingPushed(s, events[0]);
      RunCounts(Next(s, events[0]), events[1..]);
    }
  }

  lemma NothingPushed<J>(s: State<J>, e: Event<J>)
    requires Enabled(s, e)
    ensures Next(s, e).pushed == s.pushed && Next(s, e).max == s.max
  {
  }

  lemma {:induction false} SomeStepLeft<J>(workers: seq<Worker<J>>) returns (w: nat)
    requires Live(workers) > 0
    ensures w < |workers| && !workers[w].Exited?
    decreases |workers|
  {
    w := |workers| - 1;
    if workers[w].Exited? {
      w := SomeStepLeft(workers[..w]);
    }
  }

  /** When pushing stops, any schedule of worker steps has exactly Remaining steps; until they
      are used up some worker can move, and then the queue is empty and every job pushed has
      run exactly once, in order when there is one slot. */
  lemma QueueDrains<J>(max: int, before: seq<Event<J>>, events: seq<Event<J>>)
    requires max >= 1 && AllEnabled(Run(Init<J>(max), before), events)
    ensures var s := Run(Init<J>(max), before); var r := Run(s, events);
      && |events| <= Remaining(s)
      && (|events| < Remaining(s) <==> exists e :: Enabled(r, e))
      && (|events| == Remaining(s) ==>
            && r.queue == [] && multiset(r.finished) == multiset(s.pushed)
            && (max == 1 ==> r.finished == s.pushed))
  {
    hide CountInv, OrderInv, OnceInv, InOrder;
    var s := Run(Init<J>(max), before);
    var r := Run(s, events);
    InitInv<J>(max);
    RunInv(Init<J>(max), before);
    RunInv(s, events);
    RunCounts(s, events);
    if max == 1 {
      RunInOrder(Init<J>(1), before);
      RunInOrder(s, events);
    }
    Quiet(r);
  }

  lemma InitInv<J>(max: int)
    ensures max >= 0 ==> Inv(Init<J>(max)) && InOrder(Init<J>(max))
  {
  }

  lemma {:induction false} NoStepsNoneLive<J>(workers: seq<Worker<J>>)
    ensures Steps(workers) == 0 <==> Live(workers) == 0
  {
    if workers != [] {
      NoStepsNoneLive(workers[..|workers| - 1]);
    }
  }

  lemma Quiet<J>(s: State<J>)
    requires Inv(s) && s.max >= 1
    ensures Remaining(s) > 0 <==> exists e :: Enabled(s, e)
    ensures Remaining(s) == 0 ==> s.queue == [] && multiset(s.finished) == multiset(s.pushed)
    ensures Remaining(s) == 0 && InOrder(s) ==> s.finished == s.pushed
  {
    hide Live, Steps, Current;
    NoStepsNoneLive(s.workers);
    NoneLive(s.workers);
    if Live(s.workers) > 0 {
      var w := SomeStepLeft(s.workers);
      assert Enabled(s, if s.workers[w].Running? then Event<J>.Finish(w) else Event<J>.Ask(w));
    } else {
      assert s.queue == [];
      assert s.started + [] == s.started;
      assert s.finished + [] == s.finished;
    }
  }
}
