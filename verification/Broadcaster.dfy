/** writer.go: one frame shared by many connections, freed by whoever brings a biased
    reference count to zero. Loads of a pointer and atomic operations are steps and interleave in any order; what
    callers owe is that Close comes once, after every Broadcast call has returned. */
module Broadcasters {

  const MAX_INT32: int := 0x7FFF_FFFF

  /** One call of Broadcast, and then the job it queued. */
  datatype Phase =
    | Entered         // before once.Do
    | HasFrame        // the frame exists; before AddInt64(&c.state, 1)
    | Counted         // before writeQueue.Push
    | Queued          // Broadcast has returned; the job waits or is about to write
    | Written         // the job has written; before AddInt64(&c.state, -1)
    | Releasing       // that brought the count to zero; before doClose (its frame exists and stays)
    | Done
    | NoFrame         // genFrame failed; Broadcast has returned its error

  /** Close, and its doClose if it finds the count zero: item.frame is loaded, and then put back. */
  datatype Closing = NotCalled | CloseReleasing | CloseLoaded(frame: bool) | Closed

  datatype Built = NotYet | Failed | Ready

  /** `pooled` says whether the frame has the capacity of a shard: a frame that has not is never
      shared with anybody through the pool. `closes` counts doClose, `frees` those that return a
      frame to the pool (Put ignores nil and drops other capacities), `writes` the calls of writeFrame,
      and `lateWrites` those of a frame that is back in the pool. */
  datatype State = State(
    pooled: bool, count: int, built: Built, calls: seq<Phase>, closing: Closing,
    closes: nat, frees: nat, writes: nat, lateWrites: nat)

  datatype Event =
    | Call                      // some goroutine calls Broadcast
    | Go(call: nat, ok: bool)   // that call, or its job, takes its next step; ok: genFrame succeeds
    | CallClose
    | GoClose

  function Init(pooled: bool): State { State(pooled, MAX_INT32, NotYet, [], NotCalled, 0, 0, 0, 0) }

  /** doClose, having loaded a frame or nil. */
  function Freed(s: State, frame: bool): State {
    s.(closes := s.closes + 1, frees := s.frees + (if frame && s.pooled then 1 else 0))
  }

  predicate Returned(p: Phase) { !p.Entered? && !p.HasFrame? && !p.Counted? }

  /** What callers owe: no Broadcast once Close is called, no Close while a Broadcast is under way. */
  predicate Legal(s: State, e: Event) {
    && (e.Call? ==> s.closing == NotCalled)
    && (e.CallClose? ==> s.closing == NotCalled && forall i :: 0 <= i < |s.calls| ==> Returned(s.calls[i]))
  }

  function Advance(s: State, i: nat, ok: bool): State
    requires i < |s.calls|
  {
    match s.calls[i]
    case Entered =>
      var built := if s.built == NotYet then (if ok then Ready else Failed) else s.built;
      s.(built := built, calls := s.calls[i := if built == Ready then HasFrame else NoFrame])
    case HasFrame => s.(count := s.count + 1, calls := s.calls[i := Counted])
    case Counted => s.(calls := s.calls[i := Queued])
    case Queued =>
      s.(writes := s.writes + 1, lateWrites := s.lateWrites + (if s.frees > 0 then 1 else 0),
         calls := s.calls[i := Written])
    case Written => s.(count := s.count - 1, calls := s.calls[i := if s.count - 1 == 0 then Releasing else Done])
    case Releasing => Freed(s, s.built == Ready).(calls := s.calls[i := Done])
    case _ => s
  }

  function Next(s: State, e: Event): State {
    match e
    case Call => s.(calls := s.calls + [Entered])
    case Go(i, ok) => if i < |s.calls| then Advance(s, i, ok) else s
    case CallClose =>
      if s.closing == NotCalled then
        s.(count := s.count - MAX_INT32, closing := if s.count - MAX_INT32 == 0 then CloseReleasing else Closed)
      else s
    case GoClose =>
      match s.closing
      case CloseReleasing => s.(closing := CloseLoaded(s.built == Ready))
      case CloseLoaded(frame) => Freed(s, frame).(closing := Closed)
      case _ => s
  }

  function Run(s: State, events: seq<Event>): State
    decreases |events|
  {
    if events == [] then s else Run(Next(s, events[0]), events[1..])
  }

  predicate LegalRun(s: State, events: seq<Event>)
    decreases |events|
  {
    events == [] || (Legal(s, events[0]) && LegalRun(Next(s, events[0]), events[1..]))
  }

  // ---------------------------------------------------------------- the invariant

  function Holds(p: Phase): nat { if p.Counted? || p.Queued? || p.Written? then 1 else 0 }

  function Token(p: Phase): nat { if p.Releasing? then 1 else 0 }

  /** Calls whose reference is counted, and calls about to free the frame. */
  function Pending(calls: seq<Phase>): nat {
    if calls == [] then 0 else Pending(calls[..|calls| - 1]) + Holds(calls[|calls| - 1])
  }

  function Tokens(calls: seq<Phase>): nat {
    if calls == [] then 0 else Tokens(calls[..|calls| - 1]) + Token(calls[|calls| - 1])
  }

  lemma CallsAppend(calls: seq<Phase>, p: Phase)
    ensures Pending(calls + [p]) == Pending(calls) + Holds(p)
    ensures Tokens(calls + [p]) == Tokens(calls) + Token(p)
  {
    assert (calls + [p])[..|calls|] == calls;
  }

  lemma {:induction false} CallsUpdate(calls: seq<Phase>, i: nat, p: Phase)
    requires i < |calls|
    ensures Pending(calls[i := p]) == Pending(calls) - Holds(calls[i]) + Holds(p)
    ensures Tokens(calls[i := p]) == Tokens(calls) - Token(calls[i]) + Token(p)
    decreases |calls|
  {
    hide Holds, Token;
    var n := |calls| - 1;
    if i == n {
      assert calls[i := p][..n] == calls[..n];
    } else {
      CallsUpdate(calls[..n], i, p);
      assert calls[i := p][..n] == calls[..n][i := p];
    }
  }

  lemma {:induction false} TokenCounted(calls: seq<Phase>, i: nat)
    requires i < |calls|
    ensures Pending(calls) >= Holds(calls[i]) && Tokens(calls) >= Token(calls[i])
    decreases |calls|
  {
    hide Holds, Token;
    if i < |calls| - 1 {
      TokenCounted(calls[..|calls| - 1], i);
    }
  }

  lemma {:induction false} PendingCalls(calls: seq<Phase>)
    ensures Pending(calls) == 0 <==> forall i :: 0 <= i < |calls| ==> Holds(calls[i]) == 0
    ensures Tokens(calls) == 0 <==> forall i :: 0 <= i < |calls| ==> Token(calls[i]) == 0
    decreases |calls|
  {
    hide Holds, Token;
    if calls != [] {
      var init := calls[..|calls| - 1];
      PendingCalls(init);
      assert forall i :: 0 <= i < |init| ==> init[i] == calls[i];
      assert Holds(calls[|calls| - 1]) == 0 || Pending(calls) > 0;
      assert Token(calls[|calls| - 1]) == 0 || Tokens(calls) > 0;
    }
  }

  /** Calls of doClose that have happened or are about to. */
  function Releases(s: State): nat {
    s.closes + Tokens(s.calls) + if s.closing.CloseReleasing? || s.closing.CloseLoaded? then 1 else 0
  }

  ghost predicate Inv(s: State) {
    && s.count == Pending(s.calls) + (if s.closing == NotCalled then MAX_INT32 else 0)
    && Releases(s) == (if s.closing != NotCalled && Pending(s.calls) == 0 then 1 else 0)
    && s.frees == (if s.built == Ready && s.pooled then s.closes else 0)
    && (s.closing.CloseLoaded? ==> s.closing.frame == (s.built == Ready))
    && (s.closing != NotCalled ==> forall i :: 0 <= i < |s.calls| ==> Returned(s.calls[i]))
    && (s.built != Ready ==> forall i :: 0 <= i < |s.calls| ==> s.calls[i].Entered? || s.calls[i].NoFrame?)
    && s.lateWrites == 0
  }

  lemma GoInv(s: State, i: nat, ok: bool)
    requires Inv(s) && i < |s.calls|
    ensures Inv(Advance(s, i, ok))
  {
    hide Pending, Tokens;
    var s' := Advance(s, i, ok);
    TokenCounted(s.calls, i);
    CallsUpdate(s.calls, i, s'.calls[i]);
    assert s'.calls == s.calls[i := s'.calls[i]];
  }

  lemma NextInv(s: State, e: Event)
    requires Inv(s) && Legal(s, e)
    ensures Inv(Next(s, e))
  {
    hide Pending, Tokens, Advance;
    match e
    case Call => CallsAppend(s.calls, Entered);
    case Go(i, ok) => if i < |s.calls| { GoInv(s, i, ok); }
    case CallClose =>
    case GoClose =>
  }

  lemma {:induction false} RunInv(s: State, events: seq<Event>)
    requires Inv(s) && LegalRun(s, events)
    ensures Inv(Run(s, events))
    decreases |events|
  {
    hide Inv, Next, Legal;
    if events != [] {
      NextInv(s, events[0]);
      RunInv(Next(s, events[0]), events[1..]);
    }
  }

  /** Over every interleaving: the count is the number of references still held, plus the bias
      until Close; the frame is put back at most once, only after Close and after the last write
      that uses it, and no write ever finds it back in the pool. */
  lemma FreedOnceAfterLastUse(pooled: bool, events: seq<Event>)
    requires LegalRun(Init(pooled), events)
    ensures var s := Run(Init(pooled), events);
      && s.count == Pending(s.calls) + (if s.closing == NotCalled then MAX_INT32 else 0)
      && s.closes <= 1 && s.frees <= s.closes && s.lateWrites == 0
      && (s.closes == 1 ==>
            s.closing != NotCalled && forall i :: 0 <= i < |s.calls| ==> s.calls[i].Done? || s.calls[i].NoFrame?)
  {
    RunInv(Init(pooled), events);
    var s := Run(Init(pooled), events);
    PendingCalls(s.calls);
    if s.closes == 1 {
      forall i | 0 <= i < |s.calls|
        ensures s.calls[i].Done? || s.calls[i].NoFrame?
      {
        assert Holds(s.calls[i]) == 0 && Token(s.calls[i]) == 0 && Returned(s.calls[i]);
      }
    }
  }

  predicate Over(p: Phase) { p.Done? || p.NoFrame? }

  ghost predicate AllOver(s: State) { forall i :: 0 <= i < |s.calls| ==> Over(s.calls[i]) }

  /** It does not leak either: once Close has returned and no job is left, the frame, if one was
      ever built, has been put back, and is in the pool if a shard has its capacity. */
  lemma FreedInTheEnd(pooled: bool, events: seq<Event>)
    requires LegalRun(Init(pooled), events)
    ensures var s := Run(Init(pooled), events);
      s.closing == Closed && AllOver(s) ==>
        s.closes == 1 && s.frees == (if s.built == Ready && pooled then 1 else 0)
  {
    PooledStaysAlong(Init(pooled), events);
    RunInv(Init(pooled), events);
    PendingCalls(Run(Init(pooled), events).calls);
  }

  // ---------------------------------------------------------------- every call writes once

  /** Calls whose job has called writeFrame. */
  function HaveWritten(calls: seq<Phase>): nat {
    if calls == [] then 0
    else
      var p := calls[|calls| - 1];
      HaveWritten(calls[..|calls| - 1]) + if p.Written? || p.Releasing? || p.Done? then 1 else 0
  }

  lemma {:induction false} HaveWrittenUpdate(calls: seq<Phase>, i: nat, p: Phase)
    requires i < |calls|
    ensures var q := calls[i];
      HaveWritten(calls[i := p]) == HaveWritten(calls)
                                    - (if q.Written? || q.Releasing? || q.Done? then 1 else 0)
                                    + (if p.Written? || p.Releasing? || p.Done? then 1 else 0)
    decreases |calls|
  {
    var n := |calls| - 1;
    if i == n {
      assert calls[i := p][..n] == calls[..n];
    } else {
      HaveWrittenUpdate(calls[..n], i, p);
      assert calls[i := p][..n] == calls[..n][i := p];
    }
  }

  /** The jobs have called writeFrame once each, and whether genFrame succeeded decides for all. */
  ghost predicate WriteInv(s: State) {
    && s.writes == HaveWritten(s.calls)
    && (forall i :: 0 <= i < |s.calls| && s.calls[i].NoFrame? ==> s.built == Failed)
    && (forall i :: 0 <= i < |s.calls| && !s.calls[i].NoFrame? && !s.calls[i].Entered? ==> s.built == Ready)
  }

  lemma WriteStep(s: State, e: Event)
    requires WriteInv(s)
    ensures WriteInv(Next(s, e))
  {
    hide HaveWritten;
    match e
    case Call => HaveWrittenAppend(s.calls);
    case Go(i, ok) =>
      if i < |s.calls| {
        var p := Advance(s, i, ok).calls[i];
        HaveWrittenUpdate(s.calls, i, p);
        assert Advance(s, i, ok).calls == s.calls[i := p];
      }
    case CallClose =>
    case GoClose =>
  }

  lemma HaveWrittenAppend(calls: seq<Phase>)
    ensures HaveWritten(calls + [Entered]) == HaveWritten(calls)
  {
    assert (calls + [Entered])[..|calls|] == calls;
  }

  lemma {:induction false} WriteRun(s: State, events: seq<Event>)
    requires WriteInv(s)
    ensures WriteInv(Run(s, events))
    decreases |events|
  {
    hide WriteInv, Next;
    if events != [] {
      WriteStep(s, events[0]);
      WriteRun(Next(s, events[0]), events[1..]);
    }
  }

  lemma {:induction false} AllHaveWritten(calls: seq<Phase>)
    requires forall i :: 0 <= i < |calls| ==> Over(calls[i])
    ensures (forall i :: 0 <= i < |calls| ==> calls[i].Done?) ==> HaveWritten(calls) == |calls|
    ensures (forall i :: 0 <= i < |calls| ==> calls[i].NoFrame?) ==> HaveWritten(calls) == 0
    decreases |calls|
  {
    if calls != [] {
      var init := calls[..|calls| - 1];
      AllHaveWritten(init);
      assert forall i :: 0 <= i < |init| ==> init[i] == calls[i];
    }
  }

  /** Whatever the interleaving, once nothing is under way every Broadcast has written to its
      connection exactly once, unless genFrame failed, and then none has. */
  lemma EveryBroadcastWritesOnce(pooled: bool, events: seq<Event>)
    requires AllOver(Run(Init(pooled), events))
    ensures var s := Run(Init(pooled), events);
      && (s.built == Failed ==> s.writes == 0 && forall i :: 0 <= i < |s.calls| ==> s.calls[i].NoFrame?)
      && (s.built == Ready ==> s.writes == |s.calls| && forall i :: 0 <= i < |s.calls| ==> s.calls[i].Done?)
      && (s.built == NotYet ==> s.calls == [])
  {
    hide Run, HaveWritten;
    assert WriteInv(Init(pooled)) by { NobodyHasWritten(); }
    WriteRun(Init(pooled), events);
    AllHaveWritten(Run(Init(pooled), events).calls);
  }

  lemma NobodyHasWritten()
    ensures HaveWritten([]) == 0
  {
  }

  lemma PooledStays(s: State, e: Event)
    ensures Next(s, e).pooled == s.pooled
  {
  }

  lemma {:induction false} PooledStaysAlong(s: State, events: seq<Event>)
    ensures Run(s, events).pooled == s.pooled
    decreases |events|
  {
    hide Next;
    if events != [] {
      PooledStays(s, events[0]);
      PooledStaysAlong(Next(s, events[0]), events[1..]);
    }
  }

  lemma {:induction false} RunSplit(s: State, a: seq<Event>, b: seq<Event>)
    ensures Run(s, a + b) == Run(Run(s, a), b)
    decreases |a|
  {
    hide Next;
    if a == [] {
      assert a + b == b;
    } else {
      assert (a + b)[1..] == a[1..] + b;
      RunSplit(Next(s, a[0]), a[1..], b);
    }
  }

  // ---------------------------------------------------------------- a Broadcast after Close

  /** The frame is written after it went back to the pool, or goes back twice. */
  predicate Misused(s: State) { s.lateWrites > 0 || s.frees > 1 }

  /** Steps of calls and jobs already made, and of the Close under way. */
  predicate Quiet(events: seq<Event>) { forall i :: 0 <= i < |events| ==> events[i].Go? || events[i].GoClose? }

  /** Quiet steps of the first n calls only. */
  predicate Among(events: seq<Event>, n: nat) {
    forall i :: 0 <= i < |events| ==> events[i].GoClose? || (events[i].Go? && events[i].call < n)
  }

  lemma UpdateBeforeLast(calls: seq<Phase>, i: nat, p: Phase)
    requires i < |calls|
    ensures (calls + [Entered])[i := p] == calls[i := p] + [Entered]
  {
  }

  /** The calls before a late one do not notice it. */
  lemma LateUnnoticed(s: State, e: Event)
    requires e.GoClose? || (e.Go? && e.call < |s.calls|)
    ensures |Next(s, e).calls| == |s.calls| && Next(Next(s, Call), e) == Next(Next(s, e), Call)
  {
    if e.Go? {
      var p := Advance(s, e.call, e.ok).calls[e.call];
      assert (s.calls + [Entered])[e.call] == s.calls[e.call];
      UpdateBeforeLast(s.calls, e.call, p);
      assert Advance(s, e.call, e.ok).calls == s.calls[e.call := p];
    }
  }

  lemma {:induction false} LateUnnoticedAlong(s: State, events: seq<Event>)
    requires Among(events, |s.calls|)
    ensures |Run(s, events).calls| == |s.calls| && Run(Next(s, Call), events) == Next(Run(s, events), Call)
    decreases |events|
  {
    hide Next;
    if events != [] {
      LateUnnoticed(s, events[0]);
      LateUnnoticedAlong(Next(s, events[0]), events[1..]);
    }
  }

  function StepsLeft(p: Phase): nat {
    match p
    case Entered => 6
    case HasFrame => 5
    case Counted => 4
    case Queued => 3
    case Written => 2
    case Releasing => 1
    case _ => 0
  }

  function Work(calls: seq<Phase>): nat {
    if calls == [] then 0 else Work(calls[..|calls| - 1]) + StepsLeft(calls[|calls| - 1])
  }

  lemma {:induction false} WorkUpdate(calls: seq<Phase>, i: nat, p: Phase)
    requires i < |calls|
    ensures Work(calls[i := p]) == Work(calls) - StepsLeft(calls[i]) + StepsLeft(p)
    decreases |calls|
  {
    var n := |calls| - 1;
    if i == n {
      assert calls[i := p][..n] == calls[..n];
    } else {
      WorkUpdate(calls[..n], i, p);
      assert calls[i := p][..n] == calls[..n][i := p];
    }
  }

  lemma GoWorks(s: State, i: nat)
    requires i < |s.calls| && !Over(s.calls[i])
    ensures var s' := Next(s, Go(i, true));
      Work(s'.calls) < Work(s.calls) && s'.closing == s.closing && |s'.calls| == |s.calls|
  {
    var s' := Next(s, Go(i, true));
    assert s'.calls == s.calls[i := s'.calls[i]];
    hide Work;
    WorkUpdate(s.calls, i, s'.calls[i]);
  }

  function ClosingLeft(c: Closing): nat { if c.CloseReleasing? then 2 else if c.CloseLoaded? then 1 else 0 }

  /** After Close, everything under way can run to its end. */
  lemma {:induction false} RunsOut(s: State) returns (events: seq<Event>)
    requires Inv(s) && s.closing != NotCalled
    ensures Among(events, |s.calls|) && Inv(Run(s, events))
    ensures var r := Run(s, events); r.closing == Closed && AllOver(r) && |r.calls| == |s.calls|
    ensures s.built == Ready ==> Run(s, events).built == Ready
    decreases Work(s.calls), ClosingLeft(s.closing)
  {
    hide Next, Inv, Work;
    if s.closing.CloseReleasing? || s.closing.CloseLoaded? {
      GoCloseGoesOn(s);
      NextInv(s, GoClose);
      var more := RunsOut(Next(s, GoClose));
      events := [GoClose] + more;
      assert events[1..] == more;
    } else if i :| 0 <= i < |s.calls| && !Over(s.calls[i]) {
      GoWorks(s, i);
      NextInv(s, Go(i, true));
      BuiltStays(s, Go(i, true));
      var more := RunsOut(Next(s, Go(i, true)));
      events := [Go(i, true)] + more;
      assert events[1..] == more;
    } else {
      events := [];
    }
  }

  lemma GoCloseGoesOn(s: State)
    requires s.closing.CloseReleasing? || s.closing.CloseLoaded?
    ensures var s' := Next(s, GoClose);
      && s'.closing != NotCalled && ClosingLeft(s'.closing) < ClosingLeft(s.closing)
      && s'.calls == s.calls && s'.built == s.built
  {
  }

  lemma BuiltStays(s: State, e: Event)
    ensures s.built == Ready ==> Next(s, e).built == Ready
  {
  }

  /** The steps of a late Broadcast up to its write, once nothing else is under way. */
  lemma LateCallWrites(s: State)
    requires s.built == Ready && s.frees > 0
    ensures var go := Go(|s.calls|, true); Run(Next(s, Call), [go, go, go, go]).lateWrites > 0
  {
    var go := Go(|s.calls|, true);
    var s0 := Next(s, Call);
    var s1 := Next(s0, go);
    assert s1 == s0.(calls := s.calls + [HasFrame]);
    var s2 := Next(s1, go);
    assert s2 == s1.(count := s.count + 1, calls := s.calls + [Counted]);
    var s3 := Next(s2, go);
    assert s3 == s2.(calls := s.calls + [Queued]);
    FourSteps(s0, s1, s2, s3, go);
  }

  lemma FourSteps(s0: State, s1: State, s2: State, s3: State, e: Event)
    requires s1 == Next(s0, e) && s2 == Next(s1, e) && s3 == Next(s2, e)
    ensures Run(s0, [e, e, e, e]) == Next(s3, e)
  {
    hide Next;
    assert [e, e, e, e][1..] == [e, e, e] && [e, e, e][1..] == [e, e] && [e, e][1..] == [e] && [e][1..] == [];
    assert Run(s3, [e]) == Run(Next(s3, e), []);
    assert Run(s2, [e, e]) == Run(s3, [e]);
    assert Run(s1, [e, e, e]) == Run(s2, [e, e]);
  }

  /** A late Broadcast after the frame was built: let everything else end, then let it go. */
  lemma LateAfterReady(s: State) returns (more: seq<Event>)
    requires Inv(s) && s.closing != NotCalled && s.built == Ready && s.pooled
    ensures Quiet(more) && Misused(Run(Next(s, Call), more))
  {
    var a := RunsOut(s);
    var r := Run(s, a);
    var go := Go(|s.calls|, true);
    PendingCalls(r.calls);
    PooledStaysAlong(s, a);
    LateUnnoticedAlong(s, a);
    LateCallWrites(r);
    more := a + [go, go, go, go];
    RunSplit(Next(s, Call), a, [go, go, go, go]);
  }

  /** A late Broadcast that builds the frame before the Close under way loads it. */
  lemma LateBeforeDoClose(s: State) returns (more: seq<Event>)
    requires Inv(s) && s.closing == CloseReleasing && s.built == NotYet && s.pooled
    ensures Quiet(more) && Misused(Run(Next(s, Call), more))
  {
    var go := Go(|s.calls|, true);
    var s0 := Next(s, Call);
    var s1 := Next(s0, go);
    assert s1 == s0.(built := Ready, calls := s.calls + [HasFrame]);
    var s2 := Next(Next(s1, GoClose), GoClose);
    var s3 := Next(s2, go);
    assert s3 == s2.(count := s.count + 1, calls := s.calls + [Counted]);
    var s4 := Next(s3, go);
    assert s4 == s3.(calls := s.calls + [Queued]);
    assert Next(s4, go).lateWrites > 0;
    ThreeSteps(s0, s1, Next(s1, GoClose), go, GoClose, GoClose);
    ThreeSteps(s2, s3, s4, go, go, go);
    hide Next;
    more := [go, GoClose, GoClose] + [go, go, go];
    RunSplit(s0, [go, GoClose, GoClose], [go, go, go]);
  }

  lemma ThreeSteps(s0: State, s1: State, s2: State, d: Event, e: Event, f: Event)
    requires s1 == Next(s0, d) && s2 == Next(s1, e)
    ensures Run(s0, [d, e, f]) == Next(s2, f)
  {
    hide Next;
    assert [d, e, f][1..] == [e, f] && [e, f][1..] == [f] && [f][1..] == [];
    assert Run(s2, [f]) == Run(Next(s2, f), []);
    assert Run(s1, [e, f]) == Run(s2, [f]);
  }

  /** Close, if it has anything still to do, has found no frame. */
  predicate ClosedWithout(c: Closing) { c.Closed? || c == CloseLoaded(false) }

  /** Where a late Broadcast stands that cannot do harm: it owns the only frame there will be. */
  ghost predicate Harmless(s: State, n: nat) {
    && |s.calls| == n + 1 && s.closing != NotCalled && s.lateWrites == 0
    && (forall i :: 0 <= i < n ==> s.calls[i].NoFrame?)
    && (s.built != Failed ==> ClosedWithout(s.closing)) && (s.closing.CloseLoaded? ==> !s.closing.frame)
    && match s.calls[n]
       case Entered => s.built != Ready && s.frees == 0 && s.count == 0
       case NoFrame => s.built == Failed && s.frees == 0
       case HasFrame => s.built == Ready && s.frees == 0 && s.count == 0
       case Counted => s.built == Ready && s.frees == 0 && s.count == 1
       case Queued => s.built == Ready && s.frees == 0 && s.count == 1
       case Written => s.built == Ready && s.frees == 0 && s.count == 1
       case Releasing => s.built == Ready && s.frees == 0
       case Done => s.built == Ready && s.frees <= 1
  }

  lemma HarmlessNext(s: State, n: nat, e: Event)
    requires Harmless(s, n) && (e.Go? || e.GoClose?)
    ensures Harmless(Next(s, e), n)
  {
    if e.Go? && e.call < n {
      assert s.calls[e.call].NoFrame?;
      assert Next(s, e) == s;
    }
  }

  lemma {:induction false} HarmlessRun(s: State, n: nat, events: seq<Event>)
    requires Harmless(s, n) && Quiet(events)
    ensures Harmless(Run(s, events), n)
    decreases |events|
  {
    hide Harmless, Next;
    if events != [] {
      HarmlessNext(s, n, events[0]);
      HarmlessRun(Next(s, events[0]), n, events[1..]);
    }
  }

  lemma LateIsHarmless(s: State)
    requires Inv(s) && s.closing != NotCalled && s.built != Ready && (s.built == NotYet ==> s.closing != CloseReleasing)
    ensures Harmless(Next(s, Call), |s.calls|)
  {
    PendingCalls(s.calls);
    assert forall i :: 0 <= i < |s.calls| ==> Returned(s.calls[i]) && s.calls[i].NoFrame?;
  }

  lemma HarmlessIsNotMisused(s: State, n: nat)
    requires Harmless(s, n)
    ensures !Misused(s)
  {
  }

  /** A frame that the pool drops is never shared with anybody else. */
  lemma {:induction false} NeverPooled(s: State, events: seq<Event>)
    requires !s.pooled && s.frees == 0 && s.lateWrites == 0
    ensures !Misused(Run(s, events))
    decreases |events|
  {
    hide Next;
    if events != [] {
      NeverPooledStep(s, events[0]);
      NeverPooled(Next(s, events[0]), events[1..]);
    }
  }

  lemma NeverPooledStep(s: State, e: Event)
    requires !s.pooled && s.frees == 0 && s.lateWrites == 0
    ensures var s' := Next(s, e); !s'.pooled && s'.frees == 0 && s'.lateWrites == 0
  {
  }

  /** Exactly when a Broadcast made after Close can write a frame that is back in the pool, or put
      it back twice: a shard has its capacity, and it had been built, or Close has found the count
      zero but has not looked for the frame yet. */
  lemma LateBroadcastIff(pooled: bool, events: seq<Event>)
    requires LegalRun(Init(pooled), events) && Run(Init(pooled), events).closing != NotCalled
    ensures var s := Run(Init(pooled), events);
      (exists more :: Quiet(more) && Misused(Run(Next(s, Call), more)))
      <==> pooled && (s.built == Ready || (s.built == NotYet && s.closing == CloseReleasing))
  {
    hide Harmless, Next, Misused;
    var s := Run(Init(pooled), events);
    InitInv(pooled);
    RunInv(Init(pooled), events);
    PooledStaysAlong(Init(pooled), events);
    PooledStays(s, Call);
    if !pooled {
      NeverPooledStep(s, Call);
      forall more | Quiet(more)
        ensures !Misused(Run(Next(s, Call), more))
      {
        NeverPooled(Next(s, Call), more);
      }
    } else if s.built == Ready {
      var more := LateAfterReady(s);
    } else if s.built == NotYet && s.closing == CloseReleasing {
      var more := LateBeforeDoClose(s);
    } else {
      LateIsHarmless(s);
      forall more | Quiet(more)
        ensures !Misused(Run(Next(s, Call), more))
      {
        HarmlessRun(Next(s, Call), |s.calls|, more);
        HarmlessIsNotMisused(Run(Next(s, Call), more), |s.calls|);
      }
    }
  }

  lemma InitInv(pooled: bool)
    ensures Inv(Init(pooled))
  {
  }

  function FinishedOnce(): seq<Event> {
    var first := Go(0, true);
    [Call] + ([first, first, first, first] + ([first] + [CallClose, GoClose, GoClose]))
  }

  function LateOnce(): seq<Event> {
    var late := Go(1, true);
    [Call] + ([late, late, late, late] + [late, late])
  }

  /** It does happen: one broadcast is finished, Close frees the frame, a late one writes it and
      frees it again. */
  lemma LateBroadcastExample()
    ensures Run(Run(Init(true), FinishedOnce()), LateOnce()) == State(true, 0, Ready, [Done, Done], Closed, 2, 2, 2, 1)
  {
    var s8 := State(true, 0, Ready, [Done], Closed, 1, 1, 1, 0);
    FirstSteps(s8);
    LateSteps(s8);
  }

  lemma OneStep(s: State, e: Event)
    ensures Run(s, [e]) == Next(s, e)
  {
    hide Next;
    assert [e][1..] == [];
    assert Run(s, [e]) == Run(Next(s, e), []);
  }

  lemma FirstSteps(s8: State)
    requires s8 == State(true, 0, Ready, [Done], Closed, 1, 1, 1, 0)
    ensures Run(Init(true), FinishedOnce()) == s8
  {
    var first := Go(0, true);
    var s1 := State(true, MAX_INT32, NotYet, [Entered], NotCalled, 0, 0, 0, 0);
    assert Next(Init(true), Call) == s1;
    var s2 := s1.(built := Ready, calls := [HasFrame]);
    var s3 := s2.(count := MAX_INT32 + 1, calls := [Counted]);
    var s4 := s3.(calls := [Queued]);
    var s5 := s4.(writes := 1, calls := [Written]);
    FourSteps(s1, s2, s3, s4, first);
    assert Next(s4, first) == s5;
    var s6 := State(true, MAX_INT32, Ready, [Done], NotCalled, 0, 0, 1, 0);
    assert Next(s5, first) == s6;
    var s7 := s6.(count := 0, closing := CloseReleasing);
    assert Next(s6, CallClose) == s7 && Next(Next(s7, GoClose), GoClose) == s8;
    ThreeSteps(s6, s7, Next(s7, GoClose), CallClose, GoClose, GoClose);
    OneStep(Init(true), Call);
    OneStep(s5, first);
    hide Next;
    RunSplit(Init(true), [Call], [first, first, first, first] + ([first] + [CallClose, GoClose, GoClose]));
    RunSplit(s1, [first, first, first, first], [first] + [CallClose, GoClose, GoClose]);
    RunSplit(s5, [first], [CallClose, GoClose, GoClose]);
  }

  lemma LateSteps(s8: State)
    requires s8 == State(true, 0, Ready, [Done], Closed, 1, 1, 1, 0)
    ensures Run(s8, LateOnce()) == State(true, 0, Ready, [Done, Done], Closed, 2, 2, 2, 1)
  {
    var late := Go(1, true);
    var s9 := State(true, 0, Ready, [Done, Entered], Closed, 1, 1, 1, 0);
    assert Next(s8, Call) == s9;
    var t1 := s9.(calls := [Done, HasFrame]);
    var t2 := t1.(count := 1, calls := [Done, Counted]);
    var t3 := t2.(calls := [Done, Queued]);
    FourSteps(s9, t1, t2, t3, late);
    var t4 := t3.(calls := [Done, Written], writes := 2, lateWrites := 1);
    assert Next(t3, late) == t4;
    var t5 := t4.(count := 0, calls := [Done, Releasing]);
    assert Next(t4, late) == t5;
    assert Next(t5, late) == State(true, 0, Ready, [Done, Done], Closed, 2, 2, 2, 1);
    OneStep(s8, Call);
    OneStep(t4, late);
    OneStep(t5, late);
    hide Next;
    RunSplit(s8, [Call], [late, late, late, late] + [late, late]);
    RunSplit(s9, [late, late, late, late], [late, late]);
    assert [late, late] == [late] + [late];
    RunSplit(t4, [late], [late]);
  }
}
