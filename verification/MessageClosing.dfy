/** types.go: Message.Close when several goroutines call it. It loads c.Data, puts that back, and
    sets c.Data to nil, each a step. */
module MessageClosing {
  import opened Words
  import opened BufferOwnership
  import P = BufferPools

  /** A Close made when no other is under way, from its load to its end. */
  ghost function WholeClose(s: State, i: nat): State
    requires i < |s.cells| && s.cells[i].Received?
  {
    var call := |s.cells[i].calls|;
    Next(Next(Next(s, CloseLoad(i)), ClosePut(i, call)), CloseClear(i, call))
  }

  /** Closing a message again, once its pointer has been cleared, changes nothing else. */
  lemma ClosingAgainIsHarmless(s: State, i: nat)
    requires i < |s.cells| && s.cells[i].Received? && s.cells[i].data.None?
    ensures WholeClose(s, i) == s.(cells := s.cells[i := Received(None, s.cells[i].calls + [Over])])
  {
    var c := s.cells[i];
    var s1 := Next(s, CloseLoad(i));
    assert s1 == s.(cells := s.cells[i := Received(None, c.calls + [Loaded(None)])]);
    var s2 := Next(s1, ClosePut(i, |c.calls|));
    assert (c.calls + [Loaded(None)])[|c.calls| := Returned(None)] == c.calls + [Returned(None)];
    assert s2 == s.(cells := s.cells[i := Received(None, c.calls + [Returned(None)])]);
    assert (c.calls + [Returned(None)])[|c.calls| := Over] == c.calls + [Over];
  }

  /** Steps of the Close calls of message i that are under way. */
  predicate Closings(events: seq<Event>, i: nat) {
    forall j :: 0 <= j < |events| ==>
      (events[j].ClosePut? && events[j].cell == i) || (events[j].CloseClear? && events[j].cell == i)
  }

  /** Some buffer has come back to the pool more often than it was handed out, counting the owner
      that it has now. */
  ghost predicate Spoiled(s: State) { exists b: Id :: s.returned[b] + Owners(s.cells, b) > s.handed[b] }

  lemma {:induction false} ClosingsAreLegal(s: State, events: seq<Event>, i: nat)
    requires Closings(events, i)
    ensures LegalRun(s, events)
    decreases |events|
  {
    hide Next;
    if events != [] {
      ClosingsAreLegal(Next(s, events[0]), events[1..], i);
    }
  }

  lemma InvIsNotSpoiled(s: State)
    requires Inv(s)
    ensures !Spoiled(s)
  {
    hide Owners, Kept, HasOwner;
    forall b: Id
      ensures s.returned[b] + Owners(s.cells, b) <= s.handed[b]
    {
      assert Accounted(s, b);
    }
  }

  /** A second Close has loaded a buffer that the pool does not keep: its steps change nothing that
      counts. `was` is the state before it started. */
  ghost predicate NothingReturned(was: State, s: State, i: nat, b: Id)
    requires i < |was.cells| && was.cells[i].Received?
  {
    && s.begin == was.begin && s.end == was.end && s.caps == was.caps
    && s.handed == was.handed && s.returned == was.returned
    && !Kept(was, b) && |s.cells| == |was.cells| && s.cells[i].Received?
    && (forall j :: 0 <= j < |was.cells| && j != i ==> s.cells[j] == was.cells[j])
    && (s.cells[i].data == None || s.cells[i].data == was.cells[i].data)
    && (s.cells[i].data.Some? && Gone(was.cells[i].calls) ==> Gone(s.cells[i].calls))
    && (forall j :: 0 <= j < |s.cells[i].calls| && s.cells[i].calls[j].Loaded? && s.cells[i].calls[j].buf.Some? ==>
          s.cells[i].calls[j].buf == Some(b))
  }

  lemma NothingReturnedStep(was: State, s: State, i: nat, b: Id, e: Event)
    requires i < |was.cells| && was.cells[i].Received? && NothingReturned(was, s, i, b)
    requires (e.ClosePut? || e.CloseClear?) && e.cell == i
    ensures NothingReturned(was, Next(s, e), i, b)
  {
    hide P.IsShard;
    var c := s.cells[i];
    if e.call < |c.calls| {
      if e.ClosePut? && c.calls[e.call].Loaded? {
        var now := c.calls[e.call := Returned(c.calls[e.call].buf)];
        assert forall j :: 0 <= j < |now| && j != e.call ==> now[j] == c.calls[j];
        if Gone(c.calls) {
          var j :| 0 <= j < |c.calls| && c.calls[j].Returned? && c.calls[j].buf.Some?;
          assert now[j] == c.calls[j];
        }
      }
    }
  }

  lemma {:induction false} NothingReturnedAlong(was: State, s: State, i: nat, b: Id, events: seq<Event>)
    requires i < |was.cells| && was.cells[i].Received? && NothingReturned(was, s, i, b) && Closings(events, i)
    ensures NothingReturned(was, Run(s, events), i, b)
    decreases |events|
  {
    hide NothingReturned, Next;
    if events != [] {
      NothingReturnedStep(was, s, i, b, events[0]);
      NothingReturnedAlong(was, Next(s, events[0]), i, b, events[1..]);
    }
  }

  lemma NothingReturnedSpoilsNothing(was: State, s: State, i: nat, b: Id)
    requires Inv(was) && i < |was.cells| && was.cells[i].Received? && NothingReturned(was, s, i, b)
    ensures !Spoiled(s)
  {
    InvIsNotSpoiled(was);
    hide Inv, Gone, Kept;
    forall x: Id
      ensures HasOwner(s.cells, x) ==> HasOwner(was.cells, x)
    {
      if HasOwner(s.cells, x) {
        var j: nat, l: bool :| OwnedAt(s.cells, j, l) == Some(x);
        assert OwnedAt(was.cells, j, l) == Some(x);
      }
    }
    assert forall x: Id :: Owners(s.cells, x) <= Owners(was.cells, x);
    forall x: Id
      ensures s.returned[x] + Owners(s.cells, x) <= s.handed[x]
    {
      assert was.returned[x] + Owners(was.cells, x) <= was.handed[x];
    }
  }

  lemma SecondLoad(s: State, i: nat)
    requires Inv(s) && i < |s.cells| && s.cells[i].Received? && Overlaps(s.cells[i])
    requires !Kept(s, s.cells[i].data.value)
    ensures NothingReturned(s, Next(s, CloseLoad(i)), i, s.cells[i].data.value)
  {
    assert CellInv(s.cells[i]);
    var c := s.cells[i];
    var now := c.calls + [Loaded(c.data)];
    assert forall j :: 0 <= j < |c.calls| ==> now[j] == c.calls[j];
    if Gone(c.calls) {
      var j :| 0 <= j < |c.calls| && c.calls[j].Returned? && c.calls[j].buf.Some?;
      assert now[j] == c.calls[j];
    }
  }

  /** Putting back the buffer b, when a shard has its capacity. */
  lemma PutsBack(s: State, i: nat, call: nat, b: Id)
    requires i < |s.cells| && s.cells[i].Received? && call < |s.cells[i].calls|
    requires s.cells[i].calls[call] == Loaded(Some(b)) && Kept(s, b)
    ensures var c := s.cells[i];
      Next(s, ClosePut(i, call))
      == s.(pool := s.pool + [b], returned := s.returned + multiset{b},
            cells := s.cells[i := Received(c.data, c.calls[call := Returned(Some(b))])])
  {
    hide Kept;
  }

  lemma OneEvent(s: State, e: Event)
    ensures Run(s, [e]) == Next(s, e)
  {
    hide Next;
    assert [e][1..] == [];
    assert Run(s, [e]) == Run(Next(s, e), []);
  }

  lemma TwoEvents(s: State, d: Event, e: Event)
    ensures Run(s, [d, e]) == Next(Next(s, d), e)
  {
    hide Next;
    assert [d, e][1..] == [e];
    assert Run(s, [d, e]) == Run(Next(s, d), [e]);
    OneEvent(Next(s, d), e);
  }

  /** The other Close has already put the buffer back: the second puts it back again. */
  lemma SecondAfterReturn(s: State, i: nat, j: nat) returns (more: seq<Event>)
    requires Inv(s) && i < |s.cells| && s.cells[i].Received? && s.cells[i].data.Some?
    requires j < |s.cells[i].calls| && s.cells[i].calls[j].Returned? && Active(s.cells[i].calls[j])
    requires Kept(s, s.cells[i].data.value)
    ensures Closings(more, i) && Spoiled(Run(Next(s, CloseLoad(i)), more))
  {
    assert CellInv(s.cells[i]);
    var c := s.cells[i];
    var n, b := |c.calls|, c.data.value;
    var s1 := Next(s, CloseLoad(i));
    var now := c.calls + [Loaded(c.data)];
    assert s1 == s.(cells := s.cells[i := Received(c.data, now)]);
    SameKept(s, s1, b);
    PutsBack(s1, i, n, b);
    more := [ClosePut(i, n)];
    OneEvent(s1, ClosePut(i, n));
    var s2 := Next(s1, ClosePut(i, n));
    var after := now[n := Returned(Some(b))];
    assert after[j] == c.calls[j];
    assert Gone(c.calls) && Gone(after);
    SetOwned(s.cells, i, Received(c.data, after));
    assert s2.cells == s.cells[i := Received(c.data, after)];
    hide Gone, Next, Kept;
    SameHasOwner(s.cells, s2.cells, b);
    assert Accounted(s, b);
    assert s2.returned[b] + Owners(s2.cells, b) > s2.handed[b];
  }

  /** The other Close has only loaded the pointer: both put the buffer back. */
  lemma SecondAfterLoad(s: State, i: nat, j: nat) returns (more: seq<Event>)
    requires Inv(s) && i < |s.cells| && s.cells[i].Received? && s.cells[i].data.Some?
    requires j < |s.cells[i].calls| && s.cells[i].calls[j].Loaded? && Active(s.cells[i].calls[j])
    requires Kept(s, s.cells[i].data.value)
    ensures Closings(more, i) && Spoiled(Run(Next(s, CloseLoad(i)), more))
  {
    assert CellInv(s.cells[i]);
    var c := s.cells[i];
    var n, b := |c.calls|, c.data.value;
    var s1 := Next(s, CloseLoad(i));
    var now := c.calls + [Loaded(c.data)];
    assert s1 == s.(cells := s.cells[i := Received(c.data, now)]);
    assert now[j] == c.calls[j] == Loaded(Some(b));
    SameKept(s, s1, b);
    PutsBack(s1, i, j, b);
    var s2 := Next(s1, ClosePut(i, j));
    SameKept(s, s2, b);
    PutsBack(s2, i, n, b);
    more := [ClosePut(i, j), ClosePut(i, n)];
    TwoEvents(s1, ClosePut(i, j), ClosePut(i, n));
    var s3 := Next(s2, ClosePut(i, n));
    assert Accounted(s, b);
    assert s3.returned[b] == s.returned[b] + 2 && s3.handed == s.handed;
    NotDropped(s, i, b);
  }

  lemma NotDropped(s: State, i: nat, b: Id)
    requires Inv(s) && Kept(s, b)
    ensures s.handed[b] <= s.returned[b] + 1
  {
    assert Accounted(s, b);
  }

  /** Exactly when starting one more Close of a message can put its buffer back once too often: the
      message still points to the buffer, another Close has loaded it and not cleared the pointer,
      and a shard has its capacity. */
  lemma SecondCloseIff(s: State, i: nat)
    requires Inv(s) && i < |s.cells| && s.cells[i].Received?
    ensures (exists more :: Closings(more, i) && Spoiled(Run(Next(s, CloseLoad(i)), more)))
       <==> Overlaps(s.cells[i]) && Kept(s, s.cells[i].data.value)
  {
    hide Inv, Next, Spoiled, Kept, NothingReturned;
    if !Overlaps(s.cells[i]) {
      NextInv(s, CloseLoad(i));
      forall more | Closings(more, i)
        ensures !Spoiled(Run(Next(s, CloseLoad(i)), more))
      {
        ClosingsAreLegal(Next(s, CloseLoad(i)), more, i);
        RunInv(Next(s, CloseLoad(i)), more);
        InvIsNotSpoiled(Run(Next(s, CloseLoad(i)), more));
      }
    } else if !Kept(s, s.cells[i].data.value) {
      SecondLoad(s, i);
      forall more | Closings(more, i)
        ensures !Spoiled(Run(Next(s, CloseLoad(i)), more))
      {
        NothingReturnedAlong(s, Next(s, CloseLoad(i)), i, s.cells[i].data.value, more);
        NothingReturnedSpoilsNothing(s, Run(Next(s, CloseLoad(i)), more), i, s.cells[i].data.value);
      }
    } else {
      var j :| 0 <= j < |s.cells[i].calls| && Active(s.cells[i].calls[j]);
      if s.cells[i].calls[j].Returned? {
        var more := SecondAfterReturn(s, i, j);
      } else {
        var more := SecondAfterLoad(s, i, j);
      }
    }
  }

  /** It does happen: a Close loads the pointer, another runs from start to end, and the first puts
      the buffer back once more, so that the pool has it twice. */
  lemma EarlyLoadExample(s: State, i: nat, b: Id)
    requires i < |s.cells| && s.cells[i] == Received(Some(b), []) && Kept(s, b)
    ensures !NoRepeats(Next(WholeClose(Next(s, CloseLoad(i)), i), ClosePut(i, 0)).pool)
  {
    var s1 := Next(s, CloseLoad(i));
    assert [] + [Loaded(Some(b))] == [Loaded(Some(b))];
    assert s1 == s.(cells := s.cells[i := Received(Some(b), [Loaded(Some(b))])]);
    assert [Loaded(Some(b))] + [Loaded(Some(b))] == [Loaded(Some(b)), Loaded(Some(b))];
    var s2 := Next(s1, CloseLoad(i));
    assert s2 == s.(cells := s.cells[i := Received(Some(b), [Loaded(Some(b)), Loaded(Some(b))])]);
    SameKept(s, s2, b);
    PutsBack(s2, i, 1, b);
    var s3 := Next(s2, ClosePut(i, 1));
    assert s3.cells[i] == Received(Some(b), [Loaded(Some(b)), Returned(Some(b))]);
    assert [Loaded(Some(b)), Returned(Some(b))][1 := Over] == [Loaded(Some(b)), Over];
    var s4 := Next(s3, CloseClear(i, 1));
    assert s4 == s3.(cells := s3.cells[i := Received(None, [Loaded(Some(b)), Over])]);
    SameKept(s, s4, b);
    PutsBack(s4, i, 0, b);
    var pool := Next(s4, ClosePut(i, 0)).pool;
    assert pool == (s.pool + [b]) + [b];
    assert pool[|s.pool|] == pool[|s.pool| + 1];
  }
}
