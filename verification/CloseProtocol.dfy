/** conn.go and writer.go: any number of goroutines write and close one connection. Each
    atomic operation (taking or releasing the mutex, the CAS on closed, one load, one store,
    one write) is a step; threads interleave in any order. */
module CloseProtocol {
  import opened Words

  /** What a goroutine asks of the connection. */
  datatype Call =
    | Write                 // WriteMessage and Writev with a data, ping or pong opcode
    | WriteCloseOpcode      // WriteMessage called with OpcodeCloseConnection
    | BroadcastWrite        // Broadcaster.writeFrame, then emitError
    | Close                 // WriteClose, emitClose, or emitError with an error
    | Load                  // the end of ReadLoop: c.ev.Load, for OnClose

  datatype Pc =
    | Idle
    | WantLock(closing: bool)               // doWrite, before c.mu.Lock
    | Locked(closing: bool)                 // before the IsClosed test
    | Passed(closing: bool)                 // about to generate and write the frame
    | Wrote(failed: bool)                   // before the deferred Unlock
    | Test                                  // writeFrame, before its IsClosed test
    | Tested                                // past it, before socket.mu.Lock
    | TestedLocked                          // about to write the broadcast frame
    | Cas                                   // before the compare-and-swap on closed
    | Won                                   // writeClose, before ev.Store
    | Stored                                // before the Lock of doWrite
    | StoredLocked                          // about to write the close frame
    | CloseWritten                          // before Unlock
    | Unlocked                              // before conn.Close
    | Loading                               // before ev.Load

  datatype Thread = Thread(pc: Pc, todo: seq<Call>)

  datatype Item = Data | UserClose | Broadcast | CloseFrame

  /** `winner` remembers which thread's CAS succeeded, and `seen` whether each load found an
      error; neither is part of the program's state. */
  datatype State = State(
    closed: bool, mu: Option<nat>, stores: nat, disconnects: nat,
    wire: seq<Item>, threads: seq<Thread>, winner: Option<nat>, seen: seq<bool>)

  /** How the environment lets a write end. */
  datatype Outcome = Succeeds | Refused | Fails      // Refused: genFrame returns an error

  function Init(programs: seq<seq<Call>>): State {
    State(false, None, 0, 0, [], seq(|programs|, i requires 0 <= i < |programs| => Thread(Idle, programs[i])), None, [])
  }

  /** A write to the connection: nothing reaches the wire once conn.Close has returned. */
  function Put(s: State, item: Item, o: Outcome): State {
    if o == Refused || s.disconnects > 0 then s else s.(wire := s.wire + [item])
  }

  /** The write, or genFrame before it, returns an error. */
  predicate Broken(s: State, o: Outcome) { o != Succeeds || s.disconnects > 0 }

  predicate NeedsMutex(pc: Pc) { pc.WantLock? || pc.Tested? || pc.Stored? }

  predicate Finished(th: Thread) { th.pc.Idle? && th.todo == [] }

  /** A thread can go on unless it has finished or waits for the mutex. */
  predicate Enabled(s: State, t: nat) {
    t < |s.threads| && !Finished(s.threads[t]) && !(NeedsMutex(s.threads[t].pc) && s.mu.Some?)
  }

  function Entry(c: Call): Pc {
    match c
    case Write => WantLock(false)
    case WriteCloseOpcode => WantLock(true)
    case BroadcastWrite => Test
    case Close => Cas
    case Load => Loading
  }

  /** Where a step takes the thread that makes it. */
  function Target(s: State, pc: Pc, o: Outcome): Pc {
    match pc
    case Idle => Idle
    case WantLock(c) => Locked(c)
    case Locked(c) => if !c && s.closed then Wrote(true) else Passed(c)
    case Passed(_) => Wrote(Broken(s, o))
    case Wrote(failed) => if failed then Cas else Idle
    case Test => if s.closed then Cas else Tested
    case Tested => TestedLocked
    case TestedLocked => Wrote(Broken(s, o))
    case Cas => if s.closed then Idle else Won
    case Won => Stored
    case Stored => StoredLocked
    case StoredLocked => CloseWritten
    case CloseWritten => Unlocked
    case Unlocked => Idle
    case Loading => Idle
  }

  /** What a step changes besides. */
  function Effect(s: State, t: nat, pc: Pc, o: Outcome): State {
    match pc
    case WantLock(_) => s.(mu := Some(t))
    case Passed(c) => Put(s, if c then UserClose else Data, o)
    case Wrote(_) => s.(mu := None)
    case Tested => s.(mu := Some(t))
    case TestedLocked => Put(s, Broadcast, if o == Refused then Fails else o)
    case Cas => if s.closed then s else s.(closed := true, winner := Some(t))
    case Won => s.(stores := s.stores + 1)
    case Stored => s.(mu := Some(t))
    case StoredLocked => Put(s, CloseFrame, o)
    case CloseWritten => s.(mu := None)
    case Unlocked => s.(disconnects := s.disconnects + 1)
    case Loading => s.(seen := s.seen + [s.stores > 0])
    case _ => s
  }

  function Moved(s: State, th: Thread, o: Outcome): Thread
    requires !Finished(th)
  {
    if th.pc.Idle? then Thread(Entry(th.todo[0]), th.todo[1..]) else th.(pc := Target(s, th.pc, o))
  }

  /** Thread t takes its next step; a thread that is blocked or finished changes nothing. */
  function Next(s: State, t: nat, o: Outcome): State {
    if !Enabled(s, t) then s
    else Effect(s, t, s.threads[t].pc, o).(threads := s.threads[t := Moved(s, s.threads[t], o)])
  }

  datatype Choice = Choice(thread: nat, outcome: Outcome)

  function Run(s: State, schedule: seq<Choice>): State
    decreases |schedule|
  {
    if schedule == [] then s else Run(Next(s, schedule[0].thread, schedule[0].outcome), schedule[1..])
  }

  // ---------------------------------------------------------------- the invariant

  predicate HoldsMutex(pc: Pc) {
    pc.Locked? || pc.Passed? || pc.Wrote? || pc.TestedLocked? || pc.StoredLocked? || pc.CloseWritten?
  }

  predicate InClose(pc: Pc) { pc.Won? || pc.Stored? || pc.StoredLocked? || pc.CloseWritten? || pc.Unlocked? }

  predicate ClosePending(pc: Pc) { pc.Won? || pc.Stored? || pc.StoredLocked? }

  function CountClose(wire: seq<Item>): nat {
    if wire == [] then 0 else CountClose(wire[..|wire| - 1]) + if wire[|wire| - 1] == CloseFrame then 1 else 0
  }

  ghost predicate NothingAfterClose(wire: seq<Item>) {
    forall i, j :: 0 <= i < j < |wire| && wire[i] == CloseFrame ==> wire[j] != Data
  }

  ghost predicate MutexInv(s: State) {
    && (s.mu.Some? ==> s.mu.value < |s.threads|)
    && (forall t :: 0 <= t < |s.threads| ==> (HoldsMutex(s.threads[t].pc) <==> s.mu == Some(t)))
  }

  /** Only the winner of the CAS is closing; how far it is decides what has happened so far. */
  ghost predicate CloseInv(s: State) {
    && (s.closed <==> s.winner.Some?)
    && (s.winner.Some? ==> s.winner.value < |s.threads|)
    && (forall t :: 0 <= t < |s.threads| && InClose(s.threads[t].pc) ==> s.winner == Some(t))
    && (s.winner.None? ==> s.stores == 0 && s.disconnects == 0 && CountClose(s.wire) == 0)
    && (s.winner.Some? ==>
          var pc := s.threads[s.winner.value].pc;
          && s.stores == (if pc.Won? then 0 else 1)
          && s.disconnects == (if InClose(pc) then 0 else 1)
          && CountClose(s.wire) <= (if ClosePending(pc) then 0 else 1))
  }

  ghost predicate WireInv(s: State) {
    && NothingAfterClose(s.wire)
    && (CountClose(s.wire) > 0 ==> forall t :: 0 <= t < |s.threads| ==> s.threads[t].pc != Passed(false))
  }

  ghost predicate Inv(s: State) { MutexInv(s) && CloseInv(s) && WireInv(s) }

  lemma {:induction false} CountCloseMeans(wire: seq<Item>)
    ensures CountClose(wire) == 0 <==> forall i :: 0 <= i < |wire| ==> wire[i] != CloseFrame
  {
    if wire != [] {
      var init := wire[..|wire| - 1];
      CountCloseMeans(init);
      assert forall i :: 0 <= i < |init| ==> init[i] == wire[i];
      assert wire[|wire| - 1] == CloseFrame ==> CountClose(wire) > 0;
    }
  }

  lemma CountCloseAppend(wire: seq<Item>, item: Item)
    ensures CountClose(wire + [item]) == CountClose(wire) + if item == CloseFrame then 1 else 0
  {
    assert (wire + [item])[..|wire|] == wire;
  }

  lemma InitInv(programs: seq<seq<Call>>)
    ensures Inv(Init(programs))
  {
  }

  /** A step of thread t changes no other thread. */
  ghost predicate OnlyThread(s: State, s': State, t: nat) {
    && |s'.threads| == |s.threads| && t < |s.threads|
    && forall u :: 0 <= u < |s.threads| && u != t ==> s'.threads[u] == s.threads[u]
  }

  lemma NextOnlyThread(s: State, t: nat, o: Outcome)
    requires t < |s.threads|
    ensures OnlyThread(s, Next(s, t, o), t)
  {
    hide Enabled, Moved, Effect;
  }

  /** How a step of t passes the mutex on. */
  ghost predicate MutexStep(s: State, s': State, t: nat)
    requires OnlyThread(s, s', t)
  {
    var pc, pc' := s.threads[t].pc, s'.threads[t].pc;
    || (s'.mu == s.mu && (HoldsMutex(pc') <==> HoldsMutex(pc)))
    || (s.mu.None? && s'.mu == Some(t) && HoldsMutex(pc'))
    || (HoldsMutex(pc) && s'.mu.None? && !HoldsMutex(pc'))
  }

  lemma EffectMutex(s: State, t: nat, pc: Pc, o: Outcome)
    requires NeedsMutex(pc) ==> s.mu.None?
    ensures pc.Idle? ==> Effect(s, t, pc, o).mu == s.mu
    ensures var mu', pc' := Effect(s, t, pc, o).mu, Target(s, pc, o);
      || (mu' == s.mu && (HoldsMutex(pc') <==> HoldsMutex(pc)))
      || (s.mu.None? && mu' == Some(t) && HoldsMutex(pc'))
      || (HoldsMutex(pc) && mu'.None? && !HoldsMutex(pc'))
  {
  }

  lemma EntryHoldsNothing(c: Call)
    ensures !HoldsMutex(Entry(c)) && !InClose(Entry(c)) && Entry(c) != Passed(false) && !PastTest(Entry(c))
    ensures !HoldsMutex(Idle)
  {
  }

  lemma NextMutexStep(s: State, t: nat, o: Outcome)
    requires t < |s.threads|
    ensures OnlyThread(s, Next(s, t, o), t) && MutexStep(s, Next(s, t, o), t)
  {
    hide Effect, Target, HoldsMutex, Entry;
    NextOnlyThread(s, t, o);
    hide OnlyThread;
    var th := s.threads[t];
    if Enabled(s, t) {
      EffectMutex(s, t, th.pc, o);
      if th.pc.Idle? { EntryHoldsNothing(th.todo[0]); }
    }
  }

  lemma NextMutexInv(s: State, t: nat, o: Outcome)
    requires MutexInv(s) && t < |s.threads|
    ensures MutexInv(Next(s, t, o))
  {
    hide Next, HoldsMutex;
    NextMutexStep(s, t, o);
  }

  /** Where a step of t leaves the wire, and when it may bring t to the point of writing data. */
  lemma NextWire(s: State, t: nat, o: Outcome)
    requires t < |s.threads|
    ensures t < |Next(s, t, o).threads|
    ensures var s' := Next(s, t, o); var pc := s.threads[t].pc;
      && (s'.wire == s.wire
          || (pc == Passed(false) && s'.wire == s.wire + [Data])
          || (pc == StoredLocked && s'.wire == s.wire + [CloseFrame])
          || s'.wire == s.wire + [UserClose] || s'.wire == s.wire + [Broadcast])
    ensures var s' := Next(s, t, o); var pc := s.threads[t].pc;
      s'.threads[t].pc == Passed(false) ==> s'.wire == s.wire && (s' == s || (pc == Locked(false) && !s.closed))
  {
    hide Target, Entry;
    var th := s.threads[t];
    if Enabled(s, t) {
      TargetPassed(s, th.pc, o);
      if th.pc.Idle? { EntryHoldsNothing(th.todo[0]); }
    }
  }

  lemma TargetPassed(s: State, pc: Pc, o: Outcome)
    ensures Target(s, pc, o) == Passed(false) ==> pc == Locked(false) && !s.closed
  {
  }

  predicate Ordinary(pc: Pc) { !InClose(pc) && !pc.Cas? }

  /** A step that neither tries the CAS nor closes. */
  ghost predicate OrdinaryStep(s: State, s': State, t: nat) {
    && OnlyThread(s, s', t) && !InClose(s'.threads[t].pc)
    && s'.closed == s.closed && s'.winner == s.winner && s'.stores == s.stores && s'.disconnects == s.disconnects
    && CountClose(s'.wire) == CountClose(s.wire)
  }

  lemma OrdinaryTarget(s: State, t: nat, pc: Pc, o: Outcome)
    requires Ordinary(pc)
    ensures !InClose(Target(s, pc, o))
    ensures var s' := Effect(s, t, pc, o);
      s'.closed == s.closed && s'.winner == s.winner && s'.stores == s.stores && s'.disconnects == s.disconnects
  {
  }

  lemma OrdinaryFields(s: State, t: nat, o: Outcome)
    requires t < |s.threads| && Ordinary(s.threads[t].pc)
    ensures var s' := Next(s, t, o);
      && t < |s'.threads| && !InClose(s'.threads[t].pc)
      && s'.closed == s.closed && s'.winner == s.winner && s'.stores == s.stores && s'.disconnects == s.disconnects
  {
    hide Target, Effect, Entry, InClose;
    var th := s.threads[t];
    assert !InClose(th.pc);
    if Enabled(s, t) {
      OrdinaryTarget(s, t, th.pc, o);
      if th.pc.Idle? { EntryHoldsNothing(th.todo[0]); }
    }
  }

  lemma NextOrdinary(s: State, t: nat, o: Outcome)
    requires t < |s.threads| && Ordinary(s.threads[t].pc)
    ensures OrdinaryStep(s, Next(s, t, o), t)
  {
    hide Next, CountClose, InClose;
    NextOnlyThread(s, t, o);
    OrdinaryFields(s, t, o);
    NextWire(s, t, o);
    StoredLockedCloses();
    CountCloseAppend(s.wire, Data);
    CountCloseAppend(s.wire, UserClose);
    CountCloseAppend(s.wire, Broadcast);
  }

  lemma StoredLockedCloses()
    ensures InClose(StoredLocked)
  {
  }

  lemma OrdinaryCloseInv(s: State, s': State, t: nat)
    requires CloseInv(s) && OrdinaryStep(s, s', t) && Ordinary(s.threads[t].pc)
    ensures CloseInv(s')
  {
    hide CountClose;
  }

  lemma ClosingCloseInv(s: State, t: nat, o: Outcome)
    requires CloseInv(s) && t < |s.threads| && !Ordinary(s.threads[t].pc)
    ensures CloseInv(Next(s, t, o))
  {
    hide CountClose;
    CountCloseAppend(s.wire, CloseFrame);
  }

  lemma NextCloseInv(s: State, t: nat, o: Outcome)
    requires CloseInv(s) && t < |s.threads|
    ensures CloseInv(Next(s, t, o))
  {
    hide Next, CloseInv, OrdinaryStep;
    if Ordinary(s.threads[t].pc) {
      NextOrdinary(s, t, o);
      OrdinaryCloseInv(s, Next(s, t, o), t);
    } else {
      ClosingCloseInv(s, t, o);
    }
  }

  lemma AppendNothingAfter(wire: seq<Item>, item: Item)
    requires NothingAfterClose(wire) && (item == Data ==> CountClose(wire) == 0)
    ensures NothingAfterClose(wire + [item])
  {
    CountCloseMeans(wire);
  }

  lemma NextWireInv(s: State, t: nat, o: Outcome)
    requires Inv(s) && t < |s.threads|
    ensures WireInv(Next(s, t, o))
  {
    hide Next, NothingAfterClose, CountClose;
    var s', pc := Next(s, t, o), s.threads[t].pc;
    NextWire(s, t, o);
    NextOnlyThread(s, t, o);
    CountCloseAppend(s.wire, Data);
    CountCloseAppend(s.wire, UserClose);
    CountCloseAppend(s.wire, Broadcast);
    CountCloseAppend(s.wire, CloseFrame);
    if s'.wire != s.wire {
      AppendNothingAfter(s.wire, s'.wire[|s.wire|]);
    }
    if pc == StoredLocked {
      assert s.mu == Some(t);
    }
  }

  lemma {:induction false} RunInv(s: State, schedule: seq<Choice>)
    requires Inv(s)
    ensures Inv(Run(s, schedule))
    decreases |schedule|
  {
    hide Inv, Next;
    if schedule != [] {
      var c := schedule[0];
      NextInv(s, c.thread, c.outcome);
      RunInv(Next(s, c.thread, c.outcome), schedule[1..]);
    }
  }

  lemma NextInv(s: State, t: nat, o: Outcome)
    requires Inv(s)
    ensures Inv(Next(s, t, o))
  {
    if t < |s.threads| {
      hide Next, MutexInv, CloseInv, WireInv;
      NextMutexInv(s, t, o);
      NextCloseInv(s, t, o);
      NextWireInv(s, t, o);
    }
  }

  /** Over every interleaving: the error is stored at most once, the connection is closed at
      most once, at most one close frame comes from writeClose, and no data, ping or pong
      frame of doWrite is written after it. */
  lemma ClosingIsSafe(programs: seq<seq<Call>>, schedule: seq<Choice>)
    ensures var s := Run(Init(programs), schedule);
      && s.stores <= 1 && s.disconnects <= s.stores && CountClose(s.wire) <= s.stores
      && (s.stores == 1 ==> s.closed)
      && (forall i, j :: 0 <= i < j < |s.wire| && s.wire[i] == CloseFrame ==> s.wire[j] != Data)
  {
    InitInv(programs);
    RunInv(Init(programs), schedule);
  }

  // ---------------------------------------------------------------- nothing gets stuck

  function StepsLeft(pc: Pc): nat {
    match pc
    case Idle => 0
    case WantLock(_) => 10
    case Locked(_) => 9
    case Passed(_) => 8
    case Wrote(_) => 7
    case Test => 10
    case Tested => 9
    case TestedLocked => 8
    case Cas => 6
    case Won => 5
    case Stored => 4
    case StoredLocked => 3
    case CloseWritten => 2
    case Unlocked => 1
    case Loading => 1
  }

  function ThreadWork(th: Thread): nat { StepsLeft(th.pc) + 11 * |th.todo| }

  function Work(threads: seq<Thread>): nat {
    if threads == [] then 0 else Work(threads[..|threads| - 1]) + ThreadWork(threads[|threads| - 1])
  }

  lemma {:induction false} WorkUpdate(threads: seq<Thread>, t: nat, th: Thread)
    requires t < |threads|
    ensures Work(threads[t := th]) == Work(threads) - ThreadWork(threads[t]) + ThreadWork(th)
    decreases |threads|
  {
    var n := |threads| - 1;
    if t == n {
      assert threads[t := th][..n] == threads[..n];
    } else {
      WorkUpdate(threads[..n], t, th);
      assert threads[t := th][..n] == threads[..n][t := th];
    }
  }

  lemma TargetDecreases(s: State, pc: Pc, o: Outcome)
    requires !pc.Idle?
    ensures StepsLeft(Target(s, pc, o)) < StepsLeft(pc)
  {
  }

  lemma EntryBound(c: Call)
    ensures StepsLeft(Entry(c)) <= 10 && StepsLeft(Idle) == 0
  {
  }

  lemma EnabledStepWorks(s: State, t: nat, o: Outcome)
    requires Enabled(s, t)
    ensures t < |Next(s, t, o).threads| && ThreadWork(Next(s, t, o).threads[t]) < ThreadWork(s.threads[t])
  {
    hide Target, Effect, StepsLeft, Entry;
    var th := s.threads[t];
    if th.pc.Idle? {
      EntryBound(th.todo[0]);
    } else {
      TargetDecreases(s, th.pc, o);
    }
  }

  /** Every step that can be taken brings the end closer, so no run goes on for ever. */
  lemma EnabledStepDecreasesWork(s: State, t: nat, o: Outcome)
    requires Enabled(s, t)
    ensures Work(Next(s, t, o).threads) < Work(s.threads)
  {
    hide Next, ThreadWork;
    var s' := Next(s, t, o);
    EnabledStepWorks(s, t, o);
    NextOnlyThread(s, t, o);
    assert s'.threads == s.threads[t := s'.threads[t]];
    WorkUpdate(s.threads, t, s'.threads[t]);
  }

  /** While anything is left to do, some thread can go on; and once nothing is left, a
      connection that was closed has its error stored once and has been disconnected once. */
  lemma NeverStuck(programs: seq<seq<Call>>, schedule: seq<Choice>)
    ensures var s := Run(Init(programs), schedule);
      && ((exists t :: Enabled(s, t)) || forall t :: 0 <= t < |s.threads| ==> Finished(s.threads[t]))
      && ((forall t :: 0 <= t < |s.threads| ==> Finished(s.threads[t])) && s.closed ==>
            s.stores == 1 && s.disconnects == 1)
  {
    InitInv(programs);
    RunInv(Init(programs), schedule);
    var s := Run(Init(programs), schedule);
    MutexOwner(s);
    if t :| 0 <= t < |s.threads| && !Finished(s.threads[t]) {
      if !Enabled(s, t) {
        assert Enabled(s, s.mu.value);
      }
    }
  }

  lemma MutexOwner(s: State)
    requires Inv(s)
    ensures s.mu.Some? ==> Enabled(s, s.mu.value)
  {
    if s.mu.Some? {
      assert HoldsMutex(s.threads[s.mu.value].pc);
    }
  }

  // ---------------------------------------------------------------- broadcast frames

  /** Past writeFrame's IsClosed test, which is made before the mutex is taken. */
  predicate PastTest(pc: Pc) { pc.Tested? || pc.TestedLocked? }

  ghost predicate BroadcastWrittenAfter(s: State, schedule: seq<Choice>) {
    var w := Run(s, schedule).wire;
    exists i :: |s.wire| <= i < |w| && w[i] == Broadcast
  }

  lemma WireGrows(s: State, t: nat, o: Outcome)
    ensures s.wire <= Next(s, t, o).wire
  {
    if t < |s.threads| {
      hide Next;
      NextWire(s, t, o);
    }
  }

  lemma {:induction false} WireGrowsAlongRuns(s: State, schedule: seq<Choice>)
    ensures s.wire <= Run(s, schedule).wire
    decreases |schedule|
  {
    hide Next;
    if schedule != [] {
      var c := schedule[0];
      WireGrows(s, c.thread, c.outcome);
      WireGrowsAlongRuns(Next(s, c.thread, c.outcome), schedule[1..]);
    }
  }

  lemma ClosedStepNoBroadcast(s: State, t: nat, o: Outcome)
    requires s.closed && t < |s.threads| && !PastTest(s.threads[t].pc)
    ensures var s' := Next(s, t, o);
      && s'.closed && t < |s'.threads| && !PastTest(s'.threads[t].pc)
      && (forall i :: |s.wire| <= i < |s'.wire| ==> s'.wire[i] != Broadcast)
  {
    hide Target, Entry, PastTest;
    var th := s.threads[t];
    ClosedTarget(s, th.pc, o);
    if Enabled(s, t) {
      if th.pc.Idle? { EntryHoldsNothing(th.todo[0]); }
      assert th.pc != TestedLocked;
    }
  }

  lemma ClosedTarget(s: State, pc: Pc, o: Outcome)
    requires s.closed && !PastTest(pc)
    ensures !PastTest(Target(s, pc, o)) && pc != TestedLocked
  {
  }

  lemma {:induction false} NobodyPastTest(s: State, schedule: seq<Choice>)
    requires s.closed && forall t :: 0 <= t < |s.threads| ==> !PastTest(s.threads[t].pc)
    ensures !BroadcastWrittenAfter(s, schedule)
    decreases |schedule|
  {
    hide Next, PastTest;
    if schedule != [] {
      var t, o := schedule[0].thread, schedule[0].outcome;
      var s' := Next(s, t, o);
      WireGrows(s, t, o);
      WireGrowsAlongRuns(s', schedule[1..]);
      if t < |s.threads| {
        ClosedStepNoBroadcast(s, t, o);
        NextOnlyThread(s, t, o);
      } else {
        BeyondThreads(s, t, o);
      }
      NobodyPastTest(s', schedule[1..]);
      var w := Run(s', schedule[1..]).wire;
      assert forall i :: |s.wire| <= i < |s'.wire| ==> w[i] == s'.wire[i];
    }
  }

  lemma BeyondThreads(s: State, t: nat, o: Outcome)
    requires t >= |s.threads|
    ensures Next(s, t, o) == s
  {
  }

  function UntilRelease(pc: Pc): nat {
    match pc
    case Locked(_) => 3
    case Passed(_) => 2
    case TestedLocked => 2
    case StoredLocked => 2
    case Wrote(_) => 1
    case CloseWritten => 1
    case _ => 0
  }

  lemma HolderStep(s: State, u: nat)
    requires u < |s.threads| && s.mu == Some(u) && HoldsMutex(s.threads[u].pc)
    ensures var s' := Next(s, u, Succeeds);
      && u < |s'.threads| && s'.disconnects == s.disconnects
      && (s'.mu.None? || (s'.mu == Some(u) && HoldsMutex(s'.threads[u].pc)
                          && UntilRelease(s'.threads[u].pc) < UntilRelease(s.threads[u].pc)))
  {
  }

  /** The owner of the mutex gets to release it while thread t waits past its test. */
  lemma {:induction false} MutexGetsFree(s: State, t: nat) returns (schedule: seq<Choice>)
    requires t < |s.threads| && s.threads[t].pc == Tested && MutexInv(s)
    ensures var s' := Run(s, schedule);
      && s'.mu.None? && t < |s'.threads| && s'.threads[t].pc == Tested
      && s.wire <= s'.wire && s'.disconnects == s.disconnects
    decreases if s.mu.Some? then UntilRelease(s.threads[s.mu.value].pc) + 1 else 0
  {
    hide Next;
    if s.mu.None? {
      schedule := [];
    } else {
      var u := s.mu.value;
      assert HoldsMutex(s.threads[u].pc) && !HoldsMutex(Tested);
      HolderStep(s, u);
      NextOnlyThread(s, u, Succeeds);
      NextMutexInv(s, u, Succeeds);
      WireGrows(s, u, Succeeds);
      var more := MutexGetsFree(Next(s, u, Succeeds), t);
      schedule := [Choice(u, Succeeds)] + more;
      assert schedule[1..] == more;
    }
  }

  lemma {:induction false} RunAppend(s: State, a: seq<Choice>, b: seq<Choice>)
    ensures Run(s, a + b) == Run(Run(s, a), b)
    decreases |a|
  {
    hide Next;
    if a == [] {
      assert a + b == b;
    } else {
      assert (a + b)[1..] == a[1..] + b;
      RunAppend(Next(s, a[0].thread, a[0].outcome), a[1..], b);
    }
  }

  /** Thread t takes n steps in a row, its writes succeeding. */
  function Drive(s: State, t: nat, n: nat): State
    decreases n
  {
    if n == 0 then s else Drive(Next(s, t, Succeeds), t, n - 1)
  }

  function Repeat(t: nat, n: nat): seq<Choice> {
    if n == 0 then [] else [Choice(t, Succeeds)] + Repeat(t, n - 1)
  }

  lemma {:induction false} RunRepeat(s: State, t: nat, n: nat)
    ensures Run(s, Repeat(t, n)) == Drive(s, t, n)
    decreases n
  {
    hide Next;
    if n > 0 {
      RunRepeat(Next(s, t, Succeeds), t, n - 1);
      assert Repeat(t, n)[1..] == Repeat(t, n - 1);
    }
  }

  lemma TestedWrites(s: State, t: nat) returns (schedule: seq<Choice>)
    requires t < |s.threads| && s.disconnects == 0
    requires (s.threads[t].pc == TestedLocked || (s.threads[t].pc == Tested && s.mu.None?))
    ensures Run(s, schedule).wire == s.wire + [Broadcast]
  {
    if s.threads[t].pc == TestedLocked {
      schedule := Repeat(t, 1);
      RunRepeat(s, t, 1);
      assert Drive(s, t, 1) == Next(s, t, Succeeds);
    } else {
      schedule := Repeat(t, 2);
      RunRepeat(s, t, 2);
      var s1 := Next(s, t, Succeeds);
      assert Drive(s, t, 2) == Drive(s1, t, 1) == Next(s1, t, Succeeds);
    }
  }

  lemma DisconnectedStep(s: State, t: nat, o: Outcome)
    requires s.disconnects > 0
    ensures Next(s, t, o).disconnects > 0 && Next(s, t, o).wire == s.wire
  {
  }

  lemma {:induction false} NothingAfterDisconnect(s: State, schedule: seq<Choice>)
    requires s.disconnects > 0
    ensures Run(s, schedule).wire == s.wire
    decreases |schedule|
  {
    hide Next;
    if schedule != [] {
      DisconnectedStep(s, schedule[0].thread, schedule[0].outcome);
      NothingAfterDisconnect(Next(s, schedule[0].thread, schedule[0].outcome), schedule[1..]);
    }
  }

  /** After the close frame, a broadcast frame can still follow if and only if the connection
      is not disconnected yet and some goroutine has already passed the IsClosed test of
      writeFrame, which it makes without the mutex. */
  lemma BroadcastAfterCloseIff(programs: seq<seq<Call>>, schedule: seq<Choice>)
    requires CloseFrame in Run(Init(programs), schedule).wire
    ensures var s := Run(Init(programs), schedule);
      (exists more :: BroadcastWrittenAfter(s, more))
      <==> s.disconnects == 0 && exists t :: 0 <= t < |s.threads| && PastTest(s.threads[t].pc)
  {
    hide Next;
    var s := Run(Init(programs), schedule);
    InitInv(programs);
    RunInv(Init(programs), schedule);
    CountCloseMeans(s.wire);
    if s.disconnects > 0 {
      forall more
        ensures !BroadcastWrittenAfter(s, more)
      {
        NothingAfterDisconnect(s, more);
      }
    } else if t :| 0 <= t < |s.threads| && PastTest(s.threads[t].pc) {
      var a := [];
      if s.threads[t].pc == Tested {
        a := MutexGetsFree(s, t);
      }
      var b := TestedWrites(Run(s, a), t);
      RunAppend(s, a, b);
      var w := Run(s, a + b).wire;
      WireGrowsAlongRuns(s, a);
      assert w[|w| - 1] == Broadcast;
      assert BroadcastWrittenAfter(s, a + b);
    } else {
      forall more
        ensures !BroadcastWrittenAfter(s, more)
      {
        NobodyPastTest(s, more);
      }
    }
  }

  /** It does happen: a broadcast passes its test, the connection is closed, the broadcast is written. */
  lemma BroadcastAfterCloseExample()
    ensures Run(Init([[BroadcastWrite], [Close]]), Repeat(0, 2) + (Repeat(1, 6) + Repeat(0, 2))).wire
         == [CloseFrame, Broadcast]
  {
    var s0 := Init([[BroadcastWrite], [Close]]);
    var s2 := State(false, None, 0, 0, [], [Thread(Tested, []), Thread(Idle, [Close])], None, []);
    var s5 := State(true, None, 1, 0, [], [Thread(Tested, []), Thread(Stored, [])], Some(1), []);
    var s8 := State(true, None, 1, 0, [CloseFrame], [Thread(Tested, []), Thread(Unlocked, [])], Some(1), []);
    BroadcastPassesItsTest(s0, s2);
    CloseWins(s2, s5);
    CloseIsWritten(s5, s8);
    BroadcastIsWrittenLate(s8);
    hide Next;
    assert Drive(s2, 1, 6) == Drive(s5, 1, 3) by { DriveSum(s2, 1, 3, 3); }
    RunRepeat(s0, 0, 2);
    RunRepeat(s2, 1, 6);
    RunRepeat(s8, 0, 2);
    RunAppend(s2, Repeat(1, 6), Repeat(0, 2));
    RunAppend(s0, Repeat(0, 2), Repeat(1, 6) + Repeat(0, 2));
  }

  lemma {:induction false} DriveSum(s: State, t: nat, m: nat, n: nat)
    ensures Drive(s, t, m + n) == Drive(Drive(s, t, m), t, n)
    decreases m
  {
    hide Next;
    if m > 0 {
      DriveSum(Next(s, t, Succeeds), t, m - 1, n);
    }
  }

  lemma BroadcastPassesItsTest(s0: State, s2: State)
    requires s0 == Init([[BroadcastWrite], [Close]])
    requires s2 == State(false, None, 0, 0, [], [Thread(Tested, []), Thread(Idle, [Close])], None, [])
    ensures Drive(s0, 0, 2) == s2
  {
    assert [BroadcastWrite][1..] == [];
    assert s0.threads == [Thread(Idle, [BroadcastWrite]), Thread(Idle, [Close])];
    var s1 := Next(s0, 0, Succeeds);
    assert s1.threads == [Thread(Test, []), Thread(Idle, [Close])];
    assert Next(s1, 0, Succeeds) == s2;
    assert Drive(s0, 0, 2) == Drive(s1, 0, 1);
  }

  lemma CloseWins(s2: State, s5: State)
    requires s2 == State(false, None, 0, 0, [], [Thread(Tested, []), Thread(Idle, [Close])], None, [])
    requires s5 == State(true, None, 1, 0, [], [Thread(Tested, []), Thread(Stored, [])], Some(1), [])
    ensures Drive(s2, 1, 3) == s5
  {
    assert [Close][1..] == [];
    var s3 := Next(s2, 1, Succeeds);
    assert s3.threads == [Thread(Tested, []), Thread(Cas, [])];
    var s4 := Next(s3, 1, Succeeds);
    assert s4.threads == [Thread(Tested, []), Thread(Won, [])];
    assert Next(s4, 1, Succeeds) == s5;
    assert Drive(s2, 1, 3) == Drive(s3, 1, 2) == Drive(s4, 1, 1);
  }

  lemma CloseIsWritten(s5: State, s8: State)
    requires s5 == State(true, None, 1, 0, [], [Thread(Tested, []), Thread(Stored, [])], Some(1), [])
    requires s8 == State(true, None, 1, 0, [CloseFrame], [Thread(Tested, []), Thread(Unlocked, [])], Some(1), [])
    ensures Drive(s5, 1, 3) == s8
  {
    var s6 := Next(s5, 1, Succeeds);
    assert s6.threads == [Thread(Tested, []), Thread(StoredLocked, [])];
    var s7 := Next(s6, 1, Succeeds);
    assert s7.threads == [Thread(Tested, []), Thread(CloseWritten, [])] && s7.wire == [CloseFrame];
    assert Next(s7, 1, Succeeds) == s8;
    assert Drive(s5, 1, 3) == Drive(s6, 1, 2) == Drive(s7, 1, 1);
  }

  lemma BroadcastIsWrittenLate(s8: State)
    requires s8 == State(true, None, 1, 0, [CloseFrame], [Thread(Tested, []), Thread(Unlocked, [])], Some(1), [])
    ensures Drive(s8, 0, 2).wire == [CloseFrame, Broadcast]
  {
    var s9 := Next(s8, 0, Succeeds);
    assert s9.threads == [Thread(TestedLocked, []), Thread(Unlocked, [])];
    assert Drive(s8, 0, 2) == Drive(s9, 0, 1);
  }

  // ---------------------------------------------------------------- what OnClose is given

  /** The end of ReadLoop follows an emitError of the same goroutine. */
  ghost predicate LoadsFollowClose(todo: seq<Call>) {
    forall i :: 0 < i < |todo| && todo[i] == Load ==> todo[i - 1] == Close
  }

  /** Where a thread may be with a load still to come. */
  ghost predicate LoadReady(closed: bool, th: Thread) {
    && LoadsFollowClose(th.todo)
    && (th.pc.Loading? ==> closed)
    && (th.todo != [] && th.todo[0] == Load ==> closed || th.pc.Cas?)
  }

  ghost predicate LoadInv(s: State) { forall t :: 0 <= t < |s.threads| ==> LoadReady(s.closed, s.threads[t]) }

  lemma StartLoadReady(closed: bool, th: Thread)
    requires th.pc.Idle? && th.todo != [] && LoadReady(closed, th)
    ensures LoadReady(closed, Thread(Entry(th.todo[0]), th.todo[1..]))
  {
    assert forall i :: 0 < i < |th.todo| ==> th.todo[1..][i - 1] == th.todo[i];
  }

  /** What a thread on its way to the end of its emitError needs. */
  lemma TargetLoadReady(s: State, t: nat, pc: Pc, o: Outcome)
    requires !pc.Idle?
    ensures !Target(s, pc, o).Loading?
    ensures s.closed ==> Effect(s, t, pc, o).closed
    ensures pc.Cas? ==> Effect(s, t, pc, o).closed
  {
  }

  lemma ClosedMonotone(s: State, t: nat, o: Outcome)
    ensures s.closed ==> Next(s, t, o).closed
  {
  }

  lemma NextLoadInv(s: State, t: nat, o: Outcome)
    requires LoadInv(s)
    ensures LoadInv(Next(s, t, o))
  {
    if t < |s.threads| {
      hide Target, Effect, Entry, LoadsFollowClose;
      var th := s.threads[t];
      if th.pc.Idle? {
        if th.todo != [] { StartLoadReady(s.closed, th); }
      } else {
        TargetLoadReady(s, t, th.pc, o);
      }
      NextOnlyThread(s, t, o);
      ClosedMonotone(s, t, o);
    }
  }

  lemma {:induction false} RunLoadInv(s: State, schedule: seq<Choice>)
    requires LoadInv(s)
    ensures LoadInv(Run(s, schedule))
    decreases |schedule|
  {
    hide LoadInv, Next;
    if schedule != [] {
      NextLoadInv(s, schedule[0].thread, schedule[0].outcome);
      RunLoadInv(Next(s, schedule[0].thread, schedule[0].outcome), schedule[1..]);
    }
  }

  /** OnClose is given no error, although the connection has been closed for one, if and only
      if the goroutine that won the CAS has not reached ev.Store when ReadLoop loads ev. */
  lemma OnCloseSeesNothingIff(programs: seq<seq<Call>>, schedule: seq<Choice>, t: nat, o: Outcome)
    requires forall i :: 0 <= i < |programs| ==>
      LoadsFollowClose(programs[i]) && (programs[i] != [] ==> programs[i][0] != Load)
    requires var s := Run(Init(programs), schedule); t < |s.threads| && s.threads[t].pc.Loading?
    ensures var s := Run(Init(programs), schedule);
      && s.closed && s.winner.Some? && s.winner.value < |s.threads|
      && Next(s, t, o).seen == s.seen + [!s.threads[s.winner.value].pc.Won?]
  {
    var s := Run(Init(programs), schedule);
    InitInv(programs);
    RunInv(Init(programs), schedule);
    RunLoadInv(Init(programs), schedule);
    assert LoadReady(s.closed, s.threads[t]);
  }

  lemma WinnerStopsEarly(s0: State, s2: State)
    requires s0 == Init([[Close], [Close, Load]])
    requires s2 == State(true, None, 0, 0, [], [Thread(Won, []), Thread(Idle, [Close, Load])], Some(0), [])
    ensures Drive(s0, 0, 2) == s2
  {
    assert [Close][1..] == [];
    assert s0.threads == [Thread(Idle, [Close]), Thread(Idle, [Close, Load])];
    var s1 := Next(s0, 0, Succeeds);
    assert s1.threads == [Thread(Cas, []), Thread(Idle, [Close, Load])];
    assert Next(s1, 0, Succeeds) == s2;
    assert Drive(s0, 0, 2) == Drive(s1, 0, 1);
  }

  lemma ReaderLoses(s2: State, s4: State)
    requires s2 == State(true, None, 0, 0, [], [Thread(Won, []), Thread(Idle, [Close, Load])], Some(0), [])
    requires s4 == State(true, None, 0, 0, [], [Thread(Won, []), Thread(Idle, [Load])], Some(0), [])
    ensures Drive(s2, 1, 2) == s4
  {
    assert [Close, Load][1..] == [Load];
    var s3 := Next(s2, 1, Succeeds);
    assert s3.threads == [Thread(Won, []), Thread(Cas, [Load])];
    assert Next(s3, 1, Succeeds) == s4;
    assert Drive(s2, 1, 2) == Drive(s3, 1, 1);
  }

  lemma ReaderLoads(s4: State)
    requires s4 == State(true, None, 0, 0, [], [Thread(Won, []), Thread(Idle, [Load])], Some(0), [])
    ensures Drive(s4, 1, 2).seen == [false]
  {
    assert [Load][1..] == [];
    var s5 := Next(s4, 1, Succeeds);
    assert s5.threads == [Thread(Won, []), Thread(Loading, [])];
    assert Drive(s4, 1, 2) == Drive(s5, 1, 1) == Next(s5, 1, Succeeds);
  }

  /** It does happen: another goroutine wins the CAS, and ReadLoop ends before its ev.Store. */
  lemma OnCloseSeesNothingExample()
    ensures Run(Init([[Close], [Close, Load]]), Repeat(0, 2) + Repeat(1, 4)).seen == [false]
  {
    var s0 := Init([[Close], [Close, Load]]);
    var s2 := State(true, None, 0, 0, [], [Thread(Won, []), Thread(Idle, [Close, Load])], Some(0), []);
    var s4 := State(true, None, 0, 0, [], [Thread(Won, []), Thread(Idle, [Load])], Some(0), []);
    WinnerStopsEarly(s0, s2);
    ReaderLoses(s2, s4);
    ReaderLoads(s4);
    hide Next;
    DriveSum(s2, 1, 2, 2);
    RunRepeat(s0, 0, 2);
    RunRepeat(s2, 1, 4);
    RunAppend(s0, Repeat(0, 2), Repeat(1, 4));
  }
}
