/** task.go and reader.go: with ParallelEnabled, ReadLoop hands every message to a goroutine of its
    own, and a channel with room for ParallelGolimit tokens bounds how many there are. Every send
    on and receive from the channel, and every start and end of a handler, is a step. */
module Dispatchers {
  import opened Words

  /** The goroutine that channel.Go starts for a message. */
  datatype Worker<M> =
    | Starting(message: M)    // before f(m)
    | Running(message: M)     // OnMessage is under way
    | Leaving                 // before c.done
    | Gone

  /** `waiting` is the message with which ReadLoop stands in c.add. `read`, `dispatched` and
      `finished` record history. */
  datatype State<M> = State(
    limit: nat, tokens: nat, waiting: Option<M>, workers: seq<Worker<M>>,
    read: seq<M>, dispatched: seq<M>, finished: seq<M>)

  datatype Event<M> =
    | Read(message: M)        // ReadLoop has a message and calls readQueue.Go
    | Add                     // c.add gets its token in, and the goroutine is started
    | Go(worker: nat)         // that goroutine takes its next step

  function Init<M>(limit: nat): State<M> { State(limit, 0, None, [], [], [], []) }

  predicate Enabled<M>(s: State<M>, e: Event<M>) {
    match e
    case Read(_) => s.waiting.None?
    case Add => s.waiting.Some? && s.tokens < s.limit
    case Go(w) => w < |s.workers| && !s.workers[w].Gone?
  }

  function WorkerStep<M>(s: State<M>, w: nat): State<M>
    requires w < |s.workers|
  {
    match s.workers[w]
    case Starting(m) => s.(workers := s.workers[w := Running(m)], dispatched := s.dispatched + [m])
    case Running(m) => s.(workers := s.workers[w := Leaving], finished := s.finished + [m])
    case Leaving => s.(workers := s.workers[w := Gone], tokens := if s.tokens > 0 then s.tokens - 1 else 0)
    case Gone => s
  }

  /** A step that is not enabled blocks, and changes nothing. */
  function Next<M>(s: State<M>, e: Event<M>): State<M> {
    if !Enabled(s, e) then s
    else
      match e
      case Read(m) => s.(waiting := Some(m), read := s.read + [m])
      case Add =>
        s.(waiting := None, tokens := s.tokens + 1, workers := s.workers + [Starting(s.waiting.value)])
      case Go(w) => WorkerStep(s, w)
  }

  function Run<M>(s: State<M>, events: seq<Event<M>>): State<M>
    decreases |events|
  {
    if events == [] then s else Run(Next(s, events[0]), events[1..])
  }

  // ---------------------------------------------------------------- counting

  /** Goroutines that hold a token. */
  function Live<M>(ws: seq<Worker<M>>): nat {
    if ws == [] then 0 else Live(ws[..|ws| - 1]) + if ws[|ws| - 1].Gone? then 0 else 1
  }

  /** How many goroutines stand at w. */
  function At<M(==)>(ws: seq<Worker<M>>, w: Worker<M>): nat {
    if ws == [] then 0 else At(ws[..|ws| - 1], w) + if ws[|ws| - 1] == w then 1 else 0
  }

  /** Handlers under way. */
  function Busy<M>(ws: seq<Worker<M>>): nat {
    if ws == [] then 0 else Busy(ws[..|ws| - 1]) + if ws[|ws| - 1].Running? then 1 else 0
  }

  lemma Appended<M(!new)>(ws: seq<Worker<M>>, w: Worker<M>)
    ensures Live(ws + [w]) == Live(ws) + if w.Gone? then 0 else 1
    ensures forall x: Worker<M> :: At(ws + [w], x) == At(ws, x) + if x == w then 1 else 0
  {
    assert (ws + [w])[..|ws|] == ws;
  }

  lemma {:induction false} LiveUpdated<M>(ws: seq<Worker<M>>, i: nat, w: Worker<M>)
    requires i < |ws|
    ensures Live(ws[i := w]) == Live(ws) - (if ws[i].Gone? then 0 else 1) + (if w.Gone? then 0 else 1)
    decreases |ws|
  {
    var n := |ws| - 1;
    if i == n {
      assert ws[i := w][..n] == ws[..n];
    } else {
      LiveUpdated(ws[..n], i, w);
      assert ws[i := w][..n] == ws[..n][i := w];
    }
  }

  lemma {:induction false} AtUpdated<M>(ws: seq<Worker<M>>, i: nat, w: Worker<M>, x: Worker<M>)
    requires i < |ws|
    ensures At(ws[i := w], x) == At(ws, x) - (if ws[i] == x then 1 else 0) + (if w == x then 1 else 0)
    decreases |ws|
  {
    var n := |ws| - 1;
    if i == n {
      assert ws[i := w][..n] == ws[..n];
    } else {
      AtUpdated(ws[..n], i, w, x);
      assert ws[i := w][..n] == ws[..n][i := w];
    }
  }

  lemma {:induction false} BusyIsLive<M>(ws: seq<Worker<M>>)
    ensures Busy(ws) <= Live(ws)
  {
    if ws != [] {
      BusyIsLive(ws[..|ws| - 1]);
    }
  }

  lemma {:induction false} NoneLive<M(!new)>(ws: seq<Worker<M>>)
    ensures Live(ws) == 0 <==> forall i :: 0 <= i < |ws| ==> ws[i].Gone?
    ensures Live(ws) == 0 ==> forall x: Worker<M> :: !x.Gone? ==> At(ws, x) == 0
    decreases |ws|
  {
    if ws != [] {
      var init := ws[..|ws| - 1];
      NoneLive(init);
      assert forall i :: 0 <= i < |init| ==> init[i] == ws[i];
      assert ws[|ws| - 1].Gone? || Live(ws) > 0;
    }
  }

  // ---------------------------------------------------------------- the invariant

  function Waits<M(==)>(s: State<M>, m: M): nat { if s.waiting == Some(m) then 1 else 0 }

  /** Every message read waits, is about to be dispatched, or has been dispatched, once; and every
      one dispatched is being handled or has been, once. */
  ghost predicate Inv<M(!new)>(s: State<M>) {
    && s.tokens == Live(s.workers) <= s.limit
    && (forall m :: multiset(s.read)[m] == multiset(s.dispatched)[m] + At(s.workers, Starting(m)) + Waits(s, m))
    && (forall m :: multiset(s.dispatched)[m] == multiset(s.finished)[m] + At(s.workers, Running(m)))
  }

  lemma Counted<M>(s: seq<M>, x: M, m: M)
    ensures multiset(s + [x])[m] == multiset(s)[m] + if m == x then 1 else 0
  {
    assert multiset(s + [x]) == multiset(s) + multiset{x};
  }

  lemma ReadInv<M(!new)>(s: State<M>, x: M)
    requires Inv(s) && s.waiting.None?
    ensures Inv(Next(s, Read(x)))
  {
    hide Live, At;
    forall m
      ensures multiset(s.read + [x])[m] == multiset(s.read)[m] + if m == x then 1 else 0
    {
      Counted(s.read, x, m);
    }
  }

  lemma AddInv<M(!new)>(s: State<M>)
    requires Inv(s) && Enabled(s, Add)
    ensures Inv(Next(s, Add))
  {
    hide Live, At;
    Appended(s.workers, Starting(s.waiting.value));
  }

  lemma WorkerInv<M(!new)>(s: State<M>, w: nat)
    requires Inv(s) && w < |s.workers|
    ensures Inv(WorkerStep(s, w))
  {
    hide Live, At;
    var s' := WorkerStep(s, w);
    var now := s'.workers[w];
    assert s'.workers == s.workers[w := now];
    LiveUpdated(s.workers, w, now);
    forall m
      ensures multiset(s'.read)[m] == multiset(s'.dispatched)[m] + At(s'.workers, Starting(m)) + Waits(s', m)
      ensures multiset(s'.dispatched)[m] == multiset(s'.finished)[m] + At(s'.workers, Running(m))
    {
      AtUpdated(s.workers, w, now, Starting(m));
      AtUpdated(s.workers, w, now, Running(m));
      if s.workers[w].Starting? { Counted(s.dispatched, s.workers[w].message, m); }
      if s.workers[w].Running? { Counted(s.finished, s.workers[w].message, m); }
    }
  }

  lemma NextInv<M(!new)>(s: State<M>, e: Event<M>)
    requires Inv(s)
    ensures Inv(Next(s, e))
  {
    hide Inv;
    if Enabled(s, e) {
      match e
      case Read(m) => ReadInv(s, m);
      case Add => AddInv(s);
      case Go(w) => WorkerInv(s, w);
    }
  }

  lemma {:induction false} RunInv<M(!new)>(s: State<M>, events: seq<Event<M>>)
    requires Inv(s)
    ensures Inv(Run(s, events)) && Run(s, events).limit == s.limit
    decreases |events|
  {
    hide Inv, Next;
    if events != [] {
      NextInv(s, events[0]);
      LimitStays(s, events[0]);
      RunInv(Next(s, events[0]), events[1..]);
    }
  }

  lemma LimitStays<M>(s: State<M>, e: Event<M>)
    ensures Next(s, e).limit == s.limit
  {
  }

  /** Over every interleaving: at most `limit` handlers are under way at once, no message is
      dispatched or handled more often than it was read, and each one read that does not wait or
      stand before its handler has been dispatched. */
  lemma BoundedAndOnce<M(!new)>(limit: nat, events: seq<Event<M>>)
    ensures var s := Run(Init<M>(limit), events);
      && Busy(s.workers) <= s.tokens <= limit
      && (forall m :: multiset(s.read)[m] == multiset(s.dispatched)[m] + At(s.workers, Starting(m)) + Waits(s, m))
      && (forall m :: multiset(s.dispatched)[m] == multiset(s.finished)[m] + At(s.workers, Running(m)))
  {
    RunInv(Init<M>(limit), events);
    BusyIsLive(Run(Init<M>(limit), events).workers);
  }

  // ---------------------------------------------------------------- everything is dispatched

  function WorkerSteps<M>(w: Worker<M>): nat {
    match w
    case Starting(_) => 3
    case Running(_) => 2
    case Leaving => 1
    case Gone => 0
  }

  function Steps<M>(ws: seq<Worker<M>>): nat {
    if ws == [] then 0 else Steps(ws[..|ws| - 1]) + WorkerSteps(ws[|ws| - 1])
  }

  /** How many more steps there are until everything read has been handled. */
  function Remaining<M>(s: State<M>): nat { Steps(s.workers) + if s.waiting.Some? then 4 else 0 }

  lemma {:induction false} StepsUpdated<M>(ws: seq<Worker<M>>, i: nat, w: Worker<M>)
    requires i < |ws|
    ensures Steps(ws[i := w]) == Steps(ws) - WorkerSteps(ws[i]) + WorkerSteps(w)
    decreases |ws|
  {
    var n := |ws| - 1;
    if i == n {
      assert ws[i := w][..n] == ws[..n];
    } else {
      StepsUpdated(ws[..n], i, w);
      assert ws[i := w][..n] == ws[..n][i := w];
    }
  }

  /** Every step but reading another message uses up exactly one of them. */
  lemma StepUsesOne<M>(s: State<M>, e: Event<M>)
    requires Enabled(s, e) && !e.Read?
    ensures Remaining(Next(s, e)) == Remaining(s) - 1
  {
    hide Steps;
    match e
    case Add => StepsAppended(s.workers, Starting(s.waiting.value));
    case Go(w) => StepsUpdated(s.workers, w, Next(s, e).workers[w]);
  }

  lemma StepsAppended<M>(ws: seq<Worker<M>>, w: Worker<M>)
    ensures Steps(ws + [w]) == Steps(ws) + WorkerSteps(w)
  {
    assert (ws + [w])[..|ws|] == ws;
  }

  lemma {:induction false} NoStepsLeft<M>(ws: seq<Worker<M>>)
    ensures Steps(ws) == 0 <==> Live(ws) == 0
    decreases |ws|
  {
    if ws != [] {
      NoStepsLeft(ws[..|ws| - 1]);
    }
  }

  lemma NothingLeft<M(!new)>(s: State<M>)
    requires Inv(s) && Remaining(s) == 0
    ensures multiset(s.dispatched) == multiset(s.read) && multiset(s.finished) == multiset(s.read)
    ensures forall e :: Enabled(s, e) ==> e.Read?
  {
    NoStepsLeft(s.workers);
    NoneLive(s.workers);
    hide Live, At, Steps;
    assert forall m :: multiset(s.read)[m] == multiset(s.dispatched)[m] == multiset(s.finished)[m];
  }

  lemma SomethingLeft<M(!new)>(s: State<M>) returns (e: Event<M>)
    requires Inv(s) && Remaining(s) > 0 && s.limit >= 1
    ensures Enabled(s, e) && !e.Read?
  {
    NoStepsLeft(s.workers);
    NoneLive(s.workers);
    hide Live, At, Steps;
    if w :| 0 <= w < |s.workers| && !s.workers[w].Gone? {
      e := Go(w);
    } else {
      e := Add;
    }
  }

  /** Some step other than reading is possible as long as anything is left to do, and when nothing
      is, every message read has been dispatched and handled exactly once. */
  lemma EverythingIsDispatched<M(!new)>(limit: nat, events: seq<Event<M>>)
    requires limit >= 1
    ensures var s := Run(Init<M>(limit), events);
      && (Remaining(s) > 0 <==> exists e :: Enabled(s, e) && !e.Read?)
      && (Remaining(s) == 0 ==>
            multiset(s.dispatched) == multiset(s.read) && multiset(s.finished) == multiset(s.read))
  {
    RunInv(Init<M>(limit), events);
    hide Inv, Remaining, Run, Enabled;
    var s := Run(Init<M>(limit), events);
    if Remaining(s) == 0 {
      NothingLeft(s);
    } else {
      var e := SomethingLeft(s);
    }
  }

  /** Nothing keeps the handlers from using all the room there is. */
  lemma {:induction false} AllRoomIsUsed<M(!new)>(limit: nat, k: nat, m: M) returns (events: seq<Event<M>>)
    requires k <= limit
    ensures var s := Run(Init<M>(limit), events);
      Busy(s.workers) == k == s.tokens == |s.workers| && s.waiting.None? && s.limit == limit
    decreases k
  {
    if k == 0 {
      events := [];
    } else {
      var before := AllRoomIsUsed(limit, k - 1, m);
      var s := Run(Init<M>(limit), before);
      var more: seq<Event<M>> := [Read(m), Add, Go(k - 1)];
      OneMoreBusy(s, m);
      RunSplit(Init<M>(limit), before, more);
      events := before + more;
    }
  }

  lemma OneMoreBusy<M>(s: State<M>, m: M)
    requires s.waiting.None? && s.tokens < s.limit
    ensures var n := |s.workers|; var r := Run(s, [Read(m), Add, Go(n)]);
      && Busy(r.workers) == Busy(s.workers) + 1 && r.tokens == s.tokens + 1
      && |r.workers| == n + 1 && r.waiting.None? && r.limit == s.limit
  {
    var n := |s.workers|;
    var s1 := Next(s, Read(m));
    var s2 := Next(s1, Add);
    var s3 := Next(s2, Go(n));
    assert s3.workers == s.workers + [Running(m)];
    assert (s.workers + [Running(m)])[..n] == s.workers;
    var e: seq<Event<M>> := [Read(m), Add, Go(n)];
    assert e[1..] == [Add, Go(n)] && e[1..][1..] == [Go(n)] && e[1..][1..][1..] == [];
    hide Next;
    assert Run(s2, [Go(n)]) == Run(s3, []);
    assert Run(s1, [Add, Go(n)]) == Run(s2, [Go(n)]);
  }

  lemma {:induction false} RunSplit<M>(s: State<M>, a: seq<Event<M>>, b: seq<Event<M>>)
    ensures Run(s, a + b) == Run(Run(s, a), b)
    decreases |a|
  {
    hide Next;
    if a == [] {
      assert a + b == b;
    } else {
      assert (a + b)[1..] == a[1..] + b;
      RunSplit(Next(s, a[0]), a[1..], b);
    }
  }

  // ---------------------------------------------------------------- one at a time

  /** The messages about to be dispatched. */
  function Pending<M>(ws: seq<Worker<M>>): seq<M> {
    if ws == [] then [] else Pending(ws[..|ws| - 1]) + PendingIn(ws[|ws| - 1])
  }

  function PendingIn<M>(w: Worker<M>): seq<M> { if w.Starting? then [w.message] else [] }

  ghost predicate InOrder<M>(s: State<M>) {
    s.tokens == Live(s.workers) <= s.limit == 1 && s.dispatched + Pending(s.workers) + OneOf(s.waiting) == s.read
  }

  lemma {:induction false} NobodyPending<M>(ws: seq<Worker<M>>)
    requires Live(ws) == 0
    ensures Pending(ws) == []
    decreases |ws|
  {
    if ws != [] {
      NobodyPending(ws[..|ws| - 1]);
    }
  }

  lemma {:induction false} OnlyPending<M(!new)>(ws: seq<Worker<M>>, i: nat)
    requires i < |ws| && !ws[i].Gone? && Live(ws) == 1
    ensures Pending(ws) == PendingIn(ws[i])
    decreases |ws|
  {
    var n := |ws| - 1;
    NoneLive(ws[..n]);
    if i == n {
      NobodyPending(ws[..n]);
    } else {
      assert ws[..n][i] == ws[i];
      OnlyPending(ws[..n], i);
    }
  }

  lemma WorkerInOrder<M(!new)>(s: State<M>, w: nat)
    requires InOrder(s) && w < |s.workers| && !s.workers[w].Gone?
    ensures InOrder(WorkerStep(s, w))
  {
    hide Live, Pending;
    var s' := WorkerStep(s, w);
    var now := s'.workers[w];
    assert s'.workers == s.workers[w := now];
    LiveUpdated(s.workers, w, now);
    NoneLive(s.workers);
    OnlyPending(s.workers, w);
    if now.Gone? {
      NobodyPending(s'.workers);
    } else {
      OnlyPending(s'.workers, w);
    }
  }

  lemma PendingAppended<M>(ws: seq<Worker<M>>, w: Worker<M>)
    ensures Pending(ws + [w]) == Pending(ws) + PendingIn(w)
  {
    assert (ws + [w])[..|ws|] == ws;
  }

  lemma ReadInOrder<M>(s: State<M>, m: M)
    requires InOrder(s) && s.waiting.None?
    ensures InOrder(Next(s, Read(m)))
  {
    hide Live, Pending;
    assert OneOf(Some(m)) == [m];
    assert s.dispatched + Pending(s.workers) == s.read;
  }

  lemma AddInOrder<M(!new)>(s: State<M>)
    requires InOrder(s) && Enabled(s, Add)
    ensures InOrder(Next(s, Add))
  {
    hide Live, Pending;
    var m := s.waiting.value;
    NobodyPending(s.workers);
    PendingAppended(s.workers, Starting(m));
    Appended(s.workers, Starting(m));
    assert Pending(s.workers + [Starting(m)]) == [m];
    assert OneOf(s.waiting) == [m];
    Settled(s.dispatched, m, s.read);
  }

  lemma Settled<M>(a: seq<M>, m: M, r: seq<M>)
    requires a + [] + [m] == r
    ensures a + [m] + [] == r
  {
  }

  lemma NextInOrder<M(!new)>(s: State<M>, e: Event<M>)
    requires InOrder(s)
    ensures InOrder(Next(s, e))
  {
    hide InOrder, WorkerStep;
    if Enabled(s, e) {
      match e
      case Read(m) => ReadInOrder(s, m);
      case Add => AddInOrder(s);
      case Go(w) => WorkerInOrder(s, w);
    }
  }

  lemma {:induction false} RunInOrder<M(!new)>(s: State<M>, events: seq<Event<M>>)
    requires InOrder(s)
    ensures InOrder(Run(s, events))
    decreases |events|
  {
    hide InOrder, Next;
    if events != [] {
      NextInOrder(s, events[0]);
      RunInOrder(Next(s, events[0]), events[1..]);
    }
  }

  /** With room for one, messages are dispatched in the order in which they were read. */
  lemma OneIsInOrder<M(!new)>(events: seq<Event<M>>)
    ensures Run(Init<M>(1), events).dispatched <= Run(Init<M>(1), events).read
  {
    RunInOrder(Init<M>(1), events);
    var s := Run(Init<M>(1), events);
    assert s.dispatched + (Pending(s.workers) + OneOf(s.waiting)) == s.read;
  }

  /** With room for two that is lost: the second message overtakes the first. */
  lemma OvertakingExample()
    ensures Run(Init(2), [Read(1), Add, Read(2), Add, Go(1)]).dispatched == [2]
  {
    var s1 := State(2, 0, Some(1), [], [1], [], []);
    var s2 := State(2, 1, None, [Starting(1)], [1], [], []);
    var s3 := State(2, 1, Some(2), [Starting(1)], [1, 2], [], []);
    var s4 := State(2, 2, None, [Starting(1), Starting(2)], [1, 2], [], []);
    assert Next(Init(2), Read(1)) == s1 && Next(s1, Add) == s2 && Next(s2, Read(2)) == s3 && Next(s3, Add) == s4;
    assert Next(s4, Go(1)).dispatched == [2];
    var e: seq<Event<int>> := [Read(1), Add, Read(2), Add, Go(1)];
    assert e[1..] == [Add, Read(2), Add, Go(1)] && e[1..][1..] == [Read(2), Add, Go(1)];
    assert e[1..][1..][1..] == [Add, Go(1)] && e[1..][1..][1..][1..] == [Go(1)] && e[1..][1..][1..][1..][1..] == [];
    hide Next;
    assert Run(s4, [Go(1)]) == Run(Next(s4, Go(1)), []);
    assert Run(s2, [Read(2), Add, Go(1)]) == Run(s3, [Add, Go(1)]) == Run(s4, [Go(1)]);
    assert Run(Init(2), e) == Run(s1, [Add, Read(2), Add, Go(1)]) == Run(s2, [Read(2), Add, Go(1)]);
  }
}
