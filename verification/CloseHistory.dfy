/** conn.go and writer.go: what a whole schedule has done, told from the points at which its steps
    were taken and how the network let them end, and not from where they lead: which writes put
    something on the wire, which calls of doWrite and writeFrame ended in an error, and what
    becomes of the connection then. */
module CloseHistory {
  import opened Words
  import opened CloseProtocol

  /** What thread t stands before. */
  function Point(s: State, t: nat): Pc { if t < |s.threads| then s.threads[t].pc else Idle }

  /** The step makes a write. */
  function Writes(s: State, t: nat): Option<Item> {
    match Point(s, t)
    case Passed(closing) => Some(if closing then UserClose else Data)
    case TestedLocked => Some(Broadcast)
    case StoredLocked => Some(CloseFrame)
    case _ => None
  }

  /** The call of WriteMessage, Writev or Broadcast whose end the step decides, and whether it is an
      error: genFrame refuses, the network fails, or the connection is closed or disconnected. */
  function Decides(s: State, t: nat, o: Outcome): Option<(Item, bool)> {
    match Point(s, t)
    case Locked(closing) => if s.closed && !closing then Some((Data, true)) else None
    case Test => if s.closed then Some((Broadcast, true)) else None
    case Passed(closing) => Some((if closing then UserClose else Data, o != Succeeds || s.disconnects > 0))
    case TestedLocked => Some((Broadcast, o != Succeeds || s.disconnects > 0))
    case _ => None
  }

  /** What the step brings to the wire: nothing if genFrame refuses, which it does not do to a
      broadcast's frame that exists, and nothing once the connection is disconnected. */
  function Brings(s: State, t: nat, o: Outcome): seq<Item> {
    match Writes(s, t)
    case Some(item) => if s.disconnects > 0 || (o == Refused && item != Broadcast) then [] else [item]
    case None => []
  }

  function Brought(s: State, schedule: seq<Choice>): seq<Item>
    decreases |schedule|
  {
    if schedule == [] then []
    else Brings(s, schedule[0].thread, schedule[0].outcome)
         + Brought(Next(s, schedule[0].thread, schedule[0].outcome), schedule[1..])
  }

  function Counts(d: Option<(Item, bool)>, item: Item, error: bool): nat { if d == Some((item, error)) then 1 else 0 }

  /** How many calls of this kind have ended so. */
  function Ended(s: State, schedule: seq<Choice>, item: Item, error: bool): nat
    decreases |schedule|
  {
    if schedule == [] then 0
    else Counts(Decides(s, schedule[0].thread, schedule[0].outcome), item, error)
         + Ended(Next(s, schedule[0].thread, schedule[0].outcome), schedule[1..], item, error)
  }

  // ---------------------------------------------------------------- what is on the wire

  lemma StepBrings(s: State, t: nat, o: Outcome)
    ensures Next(s, t, o).wire == s.wire + Brings(s, t, o)
  {
    hide Target, Entry;
  }

  /** The wire holds exactly what was written: every write that genFrame does not refuse and that is
      made before conn.Close returns, in the order in which they were made. */
  lemma {:induction false} WireIsWhatWasWritten(s: State, schedule: seq<Choice>)
    ensures Run(s, schedule).wire == s.wire + Brought(s, schedule)
    decreases |schedule|
  {
    hide Next, Brings;
    if schedule != [] {
      var t, o := schedule[0].thread, schedule[0].outcome;
      StepBrings(s, t, o);
      WireIsWhatWasWritten(Next(s, t, o), schedule[1..]);
    }
  }

  // ---------------------------------------------------------------- every call is accounted for

  function KindOf(c: Call): Option<Item> {
    match c
    case Write => Some(Data)
    case WriteCloseOpcode => Some(UserClose)
    case BroadcastWrite => Some(Broadcast)
    case _ => None
  }

  function CallsOf(todo: seq<Call>, item: Item): nat {
    if todo == [] then 0 else (if KindOf(todo[0]) == Some(item) then 1 else 0) + CallsOf(todo[1..], item)
  }

  /** The call under way, if its end is not decided yet. */
  function UnderWay(pc: Pc): Option<Item> {
    match pc
    case WantLock(closing) => Some(if closing then UserClose else Data)
    case Locked(closing) => Some(if closing then UserClose else Data)
    case Passed(closing) => Some(if closing then UserClose else Data)
    case Test => Some(Broadcast)
    case Tested => Some(Broadcast)
    case TestedLocked => Some(Broadcast)
    case _ => None
  }

  function OpenIn(th: Thread, item: Item): nat {
    CallsOf(th.todo, item) + if UnderWay(th.pc) == Some(item) then 1 else 0
  }

  /** Calls of this kind whose end is still to come. */
  function OpenCalls(threads: seq<Thread>, item: Item): nat {
    if threads == [] then 0 else OpenCalls(threads[..|threads| - 1], item) + OpenIn(threads[|threads| - 1], item)
  }

  lemma {:induction false} OpenUpdated(threads: seq<Thread>, t: nat, th: Thread, item: Item)
    requires t < |threads|
    ensures OpenCalls(threads[t := th], item) == OpenCalls(threads, item) - OpenIn(threads[t], item) + OpenIn(th, item)
    decreases |threads|
  {
    hide OpenIn;
    var n := |threads| - 1;
    if t == n {
      assert threads[t := th][..n] == threads[..n];
    } else {
      OpenUpdated(threads[..n], t, th, item);
      assert threads[t := th][..n] == threads[..n][t := th];
    }
  }

  lemma DecidedOnce(s: State, t: nat, o: Outcome, item: Item)
    requires Enabled(s, t) && !s.threads[t].pc.Idle?
    ensures var pc := s.threads[t].pc; var d := Decides(s, t, o);
      (if UnderWay(pc) == Some(item) then 1 else 0)
      == (if UnderWay(Target(s, pc, o)) == Some(item) then 1 else 0) + Counts(d, item, true) + Counts(d, item, false)
  {
  }

  lemma EntryOpens(c: Call, item: Item)
    ensures (if UnderWay(Entry(c)) == Some(item) then 1 else 0) == (if KindOf(c) == Some(item) then 1 else 0)
    ensures UnderWay(Idle).None?
  {
  }

  lemma StepDecides(s: State, t: nat, o: Outcome, item: Item)
    ensures var d := Decides(s, t, o); var s' := Next(s, t, o);
      OpenCalls(s.threads, item) == OpenCalls(s'.threads, item) + Counts(d, item, true) + Counts(d, item, false)
  {
    hide Target, Entry, Effect, UnderWay, OpenCalls, KindOf;
    if Enabled(s, t) {
      var th := s.threads[t];
      OpenUpdated(s.threads, t, Moved(s, th, o), item);
      if th.pc.Idle? {
        EntryOpens(th.todo[0], item);
      } else {
        DecidedOnce(s, t, o, item);
      }
    } else {
      NothingDecided(s, t, o);
    }
  }

  lemma NothingDecided(s: State, t: nat, o: Outcome)
    requires !Enabled(s, t)
    ensures Decides(s, t, o).None? && Next(s, t, o) == s
  {
  }

  lemma {:induction false} CallsAccounted(s: State, schedule: seq<Choice>, item: Item)
    ensures OpenCalls(s.threads, item)
         == Ended(s, schedule, item, true) + Ended(s, schedule, item, false)
            + OpenCalls(Run(s, schedule).threads, item)
    decreases |schedule|
  {
    hide Next, Decides, OpenCalls, Counts;
    if schedule != [] {
      var t, o := schedule[0].thread, schedule[0].outcome;
      StepDecides(s, t, o, item);
      CallsAccounted(Next(s, t, o), schedule[1..], item);
    }
  }

  lemma {:induction false} FinishedOpensNothing(threads: seq<Thread>, item: Item)
    requires forall t :: 0 <= t < |threads| ==> Finished(threads[t])
    ensures OpenCalls(threads, item) == 0
    decreases |threads|
  {
    if threads != [] {
      FinishedOpensNothing(threads[..|threads| - 1], item);
      assert Finished(threads[|threads| - 1]);
    }
  }

  ghost predicate AllFinished(s: State) { forall t :: 0 <= t < |s.threads| ==> Finished(s.threads[t]) }

  /** Over every schedule that lets all goroutines finish, every call of WriteMessage, Writev and
      Broadcast has ended exactly once, with success or with an error. A message refused because the
      connection is closed counts as an error, and a close frame of the caller's own is never
      refused for that. */
  lemma EveryWriteEndsOnce(programs: seq<seq<Call>>, schedule: seq<Choice>, item: Item)
    requires AllFinished(Run(Init(programs), schedule))
    ensures OpenCalls(Init(programs).threads, item)
         == Ended(Init(programs), schedule, item, true) + Ended(Init(programs), schedule, item, false)
  {
    hide Run, Init, OpenCalls, Ended;
    CallsAccounted(Init(programs), schedule, item);
    FinishedOpensNothing(Run(Init(programs), schedule).threads, item);
  }

  // ---------------------------------------------------------------- an error closes the connection

  /** Some write has ended in an error, so far. */
  predicate Errs(s: State, schedule: seq<Choice>)
    decreases |schedule|
  {
    schedule != []
    && var d := Decides(s, schedule[0].thread, schedule[0].outcome);
       ((d.Some? && d.value.1) || Errs(Next(s, schedule[0].thread, schedule[0].outcome), schedule[1..]))
  }

  /** Thread t is on its way to emitError's compare-and-swap. */
  predicate WillClose(pc: Pc) { pc == Wrote(true) || pc == Cas }

  /** Or it is yet to make a call that closes the connection. */
  predicate Closes(th: Thread) { WillClose(th.pc) || Close in th.todo }

  ghost predicate ClosingIsDue(s: State) {
    s.closed || exists t :: 0 <= t < |s.threads| && Closes(s.threads[t])
  }

  lemma ErrorTarget(s: State, t: nat, o: Outcome)
    requires t < |s.threads| && Decides(s, t, o).Some? && Decides(s, t, o).value.1
    ensures t < |Next(s, t, o).threads| && WillClose(Next(s, t, o).threads[t].pc)
  {
  }

  lemma DueTarget(s: State, t: nat, o: Outcome)
    requires t < |s.threads| && Closes(s.threads[t])
    ensures var s' := Next(s, t, o); s'.closed || (t < |s'.threads| && Closes(s'.threads[t]))
  {
    var todo := s.threads[t].todo;
    if todo != [] { assert todo == [todo[0]] + todo[1..]; }
  }

  lemma DueStays(s: State, t: nat, o: Outcome)
    requires ClosingIsDue(s)
    ensures ClosingIsDue(Next(s, t, o))
  {
    ClosedMonotone(s, t, o);
    if !s.closed {
      var u :| 0 <= u < |s.threads| && Closes(s.threads[u]);
      if t >= |s.threads| {
        BeyondThreads(s, t, o);
      } else {
        NextOnlyThread(s, t, o);
        if t == u { DueTarget(s, t, o); }
        hide Next;
        assert t != u ==> Closes(Next(s, t, o).threads[u]);
      }
    }
  }

  lemma {:induction false} DueStaysAlong(s: State, schedule: seq<Choice>)
    requires ClosingIsDue(s) || Errs(s, schedule)
    ensures ClosingIsDue(Run(s, schedule))
    decreases |schedule|
  {
    hide ClosingIsDue, Next, Decides;
    if schedule != [] {
      var t, o := schedule[0].thread, schedule[0].outcome;
      var d := Decides(s, t, o);
      if ClosingIsDue(s) {
        DueStays(s, t, o);
      } else if d.Some? && d.value.1 {
        OnlyThreadsDecide(s, t, o);
        ErrorTarget(s, t, o);
        IsDue(Next(s, t, o), t);
      }
      DueStaysAlong(Next(s, t, o), schedule[1..]);
    }
  }

  lemma OnlyThreadsDecide(s: State, t: nat, o: Outcome)
    requires Decides(s, t, o).Some?
    ensures t < |s.threads|
  {
  }

  lemma IsDue(s: State, t: nat)
    requires t < |s.threads| && Closes(s.threads[t])
    ensures ClosingIsDue(s)
  {
  }

  /** No goroutine is to call WriteClose, emitClose or emitError for an error of its own. */
  ghost predicate NobodyCloses(programs: seq<seq<Call>>) {
    forall i :: 0 <= i < |programs| ==> Close !in programs[i]
  }

  /** Over every schedule: once all goroutines have finished, a write that ended in an error, or a
      call to close, has closed the connection, stored one error, and disconnected once. */
  lemma FailedWriteCloses(programs: seq<seq<Call>>, schedule: seq<Choice>)
    requires AllFinished(Run(Init(programs), schedule))
    requires Errs(Init(programs), schedule) || !NobodyCloses(programs)
    ensures var s := Run(Init(programs), schedule); s.closed && s.stores == 1 && s.disconnects == 1
  {
    if !NobodyCloses(programs) {
      var i :| 0 <= i < |programs| && Close in programs[i];
      IsDue(Init(programs), i);
    }
    hide Run, Init, Errs;
    DueStaysAlong(Init(programs), schedule);
    var s := Run(Init(programs), schedule);
    assert forall t :: 0 <= t < |s.threads| ==> Finished(s.threads[t]) && !Closes(s.threads[t]);
    NeverStuck(programs, schedule);
  }

  ghost predicate Peaceful(s: State) {
    && !s.closed && s.disconnects == 0
    && forall t :: 0 <= t < |s.threads| ==>
         && !WillClose(s.threads[t].pc) && !InClose(s.threads[t].pc)
         && Close !in s.threads[t].todo
  }

  lemma PeacefulThread(s: State, t: nat, o: Outcome)
    requires Peaceful(s) && Enabled(s, t) && !(Decides(s, t, o).Some? && Decides(s, t, o).value.1)
    ensures var th := Moved(s, s.threads[t], o);
      && !WillClose(th.pc) && !InClose(th.pc) && Close !in th.todo
    ensures var e := Effect(s, t, s.threads[t].pc, o); !e.closed && e.disconnects == 0
  {
    var th := s.threads[t];
    if th.pc.Idle? {
      assert th.todo[0] != Close;
    }
  }

  lemma PeacefulStep(s: State, t: nat, o: Outcome)
    requires Peaceful(s) && !(Decides(s, t, o).Some? && Decides(s, t, o).value.1)
    ensures Peaceful(Next(s, t, o))
  {
    hide Effect, Moved, Target, InClose;
    if Enabled(s, t) {
      PeacefulThread(s, t, o);
    }
  }

  lemma {:induction false} PeacefulRun(s: State, schedule: seq<Choice>)
    requires Peaceful(s) && !Errs(s, schedule)
    ensures Peaceful(Run(s, schedule))
    decreases |schedule|
  {
    hide Peaceful, Next, Decides;
    if schedule != [] {
      PeacefulStep(s, schedule[0].thread, schedule[0].outcome);
      PeacefulRun(Next(s, schedule[0].thread, schedule[0].outcome), schedule[1..]);
    }
  }

  /** Nothing else does: once all goroutines have finished, the connection is closed if and only if
      some write ended in an error or someone was to close it. */
  lemma ClosedIffFailed(programs: seq<seq<Call>>, schedule: seq<Choice>)
    requires AllFinished(Run(Init(programs), schedule))
    ensures Run(Init(programs), schedule).closed <==> Errs(Init(programs), schedule) || !NobodyCloses(programs)
  {
    if Errs(Init(programs), schedule) || !NobodyCloses(programs) {
      FailedWriteCloses(programs, schedule);
    } else {
      assert Peaceful(Init(programs));
      hide Run, Errs, Init;
      PeacefulRun(Init(programs), schedule);
    }
  }

  // ---------------------------------------------------------------- the close frame is sent

  /** genFrame refuses nothing. */
  predicate NothingRefused(schedule: seq<Choice>) {
    forall i :: 0 <= i < |schedule| ==> schedule[i].outcome != Refused
  }

  /** The goroutine that closes has sent its close frame by the time it is past that point. */
  ghost predicate SentByWinner(s: State) {
    s.winner.Some? && s.winner.value < |s.threads| && !ClosePending(s.threads[s.winner.value].pc) ==>
      CountClose(s.wire) == 1
  }

  lemma WinnerStep(s: State, t: nat, o: Outcome)
    requires Inv(s) && SentByWinner(s) && o != Refused && t < |s.threads| && s.winner == Some(t)
    ensures SentByWinner(Next(s, t, o))
  {
    hide CountClose;
    CountCloseAppend(s.wire, CloseFrame);
    CountCloseAppend(s.wire, Data);
    CountCloseAppend(s.wire, UserClose);
    CountCloseAppend(s.wire, Broadcast);
  }

  lemma OtherStep(s: State, t: nat, o: Outcome)
    requires Inv(s) && SentByWinner(s) && t < |s.threads| && s.winner != Some(t)
    ensures SentByWinner(Next(s, t, o))
  {
    NextOnlyThread(s, t, o);
    NextWire(s, t, o);
    WinnerMoves(s, t, o);
    hide Next, CountClose, CloseInv, MutexInv, WireInv;
    CountCloseAppend(s.wire, Data);
    CountCloseAppend(s.wire, UserClose);
    CountCloseAppend(s.wire, Broadcast);
  }

  /** Only the winner stands before the close frame, and who wins then stands at Won. */
  lemma WinnerMoves(s: State, t: nat, o: Outcome)
    requires Inv(s) && t < |s.threads| && s.winner != Some(t)
    ensures s.threads[t].pc != StoredLocked
    ensures var s' := Next(s, t, o);
      s'.winner == s.winner || (s'.winner == Some(t) && t < |s'.threads| && s'.threads[t].pc == Won)
  {
    assert InClose(StoredLocked);
  }

  lemma SentStep(s: State, t: nat, o: Outcome)
    requires Inv(s) && SentByWinner(s) && o != Refused
    ensures SentByWinner(Next(s, t, o))
  {
    hide Inv, SentByWinner, Next;
    if t >= |s.threads| {
      BeyondThreads(s, t, o);
    } else if s.winner == Some(t) {
      WinnerStep(s, t, o);
    } else {
      OtherStep(s, t, o);
    }
  }

  lemma {:induction false} SentAlong(s: State, schedule: seq<Choice>)
    requires Inv(s) && SentByWinner(s) && NothingRefused(schedule)
    ensures SentByWinner(Run(s, schedule))
    decreases |schedule|
  {
    hide Inv, SentByWinner, Next;
    if schedule != [] {
      var t, o := schedule[0].thread, schedule[0].outcome;
      SentStep(s, t, o);
      NextInv(s, t, o);
      SentAlong(Next(s, t, o), schedule[1..]);
    }
  }

  /** A connection that is closed has sent exactly one close frame of writeClose, unless genFrame
      refuses to build it. */
  lemma CloseFrameIsSent(programs: seq<seq<Call>>, schedule: seq<Choice>)
    requires NothingRefused(schedule) && AllFinished(Run(Init(programs), schedule))
    requires Run(Init(programs), schedule).closed
    ensures CountClose(Run(Init(programs), schedule).wire) == 1
  {
    InitInv(programs);
    RunInv(Init(programs), schedule);
    SentAlong(Init(programs), schedule);
    var s := Run(Init(programs), schedule);
    assert Finished(s.threads[s.winner.value]);
  }
}
