/** reader.go, types.go and writer.go: who holds which buffer of the shared pool. Every Get,
    every Put and every hand-over of a pointer is a step, and connections, writers,
    broadcasters and holders of messages interleave in any order. */
module BufferOwnership {
  import opened Words
  import opened PowersOfTwo
  import opened BufferPools
  import opened FrameHeaders
  import B = Broadcasters
  import R = Readers

  type Id = nat

  /** How far readFrame is on a connection: n is the frame's length, fin its final bit. */
  datatype Phase = Idle | Reading(n: nat) | Appending(fin: bool) | Leaving

  /** A call of Message.Close: it has loaded c.Data, has put that back, has set c.Data to nil. */
  datatype Closer = Loaded(buf: Option<Id>) | Returned(buf: Option<Id>) | Over

  /** Everything that keeps pointers to buffers, with the pointers it keeps. */
  datatype Cell =
    | Connection(phase: Phase, closer: Option<Id>, assembly: Option<Id>)  // closer.Data, continuationFrame.buffer
    | Received(data: Option<Id>, calls: seq<Closer>)                      // a Message and its calls of Close
    | Writing(buf: Option<Id>)                                            // doWrite's frame, WriteClose's scratch
    | Shared(size: nat, frame: Option<Id>, count: B.State)                // a Broadcaster, its frame's length

  /** The bounds of the pool, the buffers in it, the capacity of every buffer made so far, and how
      often each was obtained (from Get or NewBuffer), put back into the pool, and dropped by Put. */
  datatype State = State(
    begin: nat, end: nat, pool: seq<Id>, caps: seq<nat>, cells: seq<Cell>,
    handed: multiset<Id>, returned: multiset<Id>, dropped: multiset<Id>)

  function Init(begin: nat, end: nat): State {
    State(begin, end, [], [], [], multiset{}, multiset{}, multiset{})
  }

  datatype Event =
    | Connect
    | StartFrame(cell: nat, n: nat, from: Option<nat>)              // binaryPool.Get(contentLength)
    | Decide(cell: nat, complete: bool, fin: bool, opcode: Opcode)  // complete: ReadN got the whole payload
    | Append(cell: nat, tooLarge: bool, cap: nat)                   // buffer.Write; cap: its capacity after that
    | Leave(cell: nat)                                              // the deferred closer.Close
    | CloseLoad(cell: nat)                                          // Message.Close loads c.Data
    | ClosePut(cell: nat, call: nat)                                // and puts that back
    | CloseClear(cell: nat, call: nat)                              // and sets c.Data to nil
    | StartWrite(n: nat, from: Option<nat>)
    | WriteBytes(cell: nat, cap: nat)                               // writing may grow the buffer
    | EndWrite(cell: nat)
    | NewBroadcaster(payload: nat)
    | BroadcastStep(cell: nat, step: B.Event, from: Option<nat>)
    | Evict(index: nat)                                             // sync.Pool lets a buffer go

  /** Where a buffer comes from; `from` is the pooled buffer that Get would take. */
  datatype Source = Get(n: nat, from: Option<nat>) | NewBuffer(cap: nat)

  /** Get takes a pooled buffer only from the shard it looks in. */
  predicate Hits(s: State, src: Source) {
    && src.Get? && src.from.Some? && src.from.value < |s.pool|
    && SizeClass(s.begin, src.n) <= s.end
    && s.pool[src.from.value] < |s.caps| && s.caps[s.pool[src.from.value]] == SizeClass(s.begin, src.n)
  }

  function NewCap(s: State, src: Source): nat {
    match src
    case Get(n, _) => Capacity(s.begin, s.end, n)
    case NewBuffer(cap) => cap
  }

  function Obtained(s: State, src: Source): Id {
    if Hits(s, src) then s.pool[src.from.value] else |s.caps|
  }

  function Obtain(s: State, src: Source): State {
    var b := Obtained(s, src);
    if Hits(s, src) then
      s.(pool := s.pool[..src.from.value] + s.pool[src.from.value + 1..], handed := s.handed + multiset{b})
    else s.(caps := s.caps + [NewCap(s, src)], handed := s.handed + multiset{b})
  }

  /** Put keeps a buffer only if a shard has its capacity. */
  ghost predicate Kept(s: State, b: Id) { b < |s.caps| && IsShard(s.begin, s.end, s.caps[b]) }

  ghost function Put(s: State, b: Option<Id>): State {
    match b
    case None => s
    case Some(b) =>
      if Kept(s, b) then s.(pool := s.pool + [b], returned := s.returned + multiset{b})
      else s.(dropped := s.dropped + multiset{b})
  }

  function Resize(s: State, b: Option<Id>, cap: nat): State {
    if b.Some? && b.value < |s.caps| then s.(caps := s.caps[b.value := cap]) else s
  }

  function Set(s: State, i: nat, c: Cell): State {
    if i < |s.cells| then s.(cells := s.cells[i := c]) else s.(cells := s.cells + [c])
  }

  function DecideStep(s: State, i: nat, complete: bool, fin: bool, opcode: Opcode): State
    requires i < |s.cells| && s.cells[i].Connection? && s.cells[i].phase.Reading?
  {
    var c := s.cells[i];
    var src := NewBuffer(c.phase.n);
    if !complete then Set(s, i, c.(phase := Leaving))
    else if opcode != CONTINUATION && c.assembly.Some? then Set(s, i, c.(phase := Leaving))
    else if fin && opcode != CONTINUATION then
      Set(Set(s, i, c.(phase := Leaving, closer := None)), |s.cells|, Received(c.closer, []))
    else if opcode != CONTINUATION then
      Set(Obtain(s, src), i, c.(phase := Appending(fin), assembly := Some(Obtained(s, src))))
    else if c.assembly.None? then Set(s, i, c.(phase := Leaving))
    else Set(s, i, c.(phase := Appending(fin)))
  }

  function AppendStep(s: State, i: nat, fin: bool, tooLarge: bool): State
    requires i < |s.cells| && s.cells[i].Connection?
  {
    var c := s.cells[i];
    if tooLarge || !fin then Set(s, i, c.(phase := Leaving))
    else Set(Set(s, i, c.(phase := Leaving, assembly := None)), |s.cells|, Received(c.assembly, []))
  }

  /** What doClose puts back: what Close loaded, or the frame that the last job wrote. */
  function PutBack(c: Cell, step: B.Event): Option<Id>
    requires c.Shared?
  {
    if step.GoClose? && c.count.closing == B.CloseLoaded(false) then None else c.frame
  }

  ghost function BroadcastNext(s: State, i: nat, step: B.Event, from: Option<nat>): State
    requires i < |s.cells| && s.cells[i].Shared?
  {
    var c := s.cells[i];
    var count := B.Next(c.count, step);
    var src := Get(c.size, from);
    if count.built == B.Ready && c.count.built != B.Ready then
      Set(Obtain(s, src), i, Shared(c.size, Some(Obtained(s, src)), count))
    else if count.closes != c.count.closes then Set(Put(s, PutBack(c, step)), i, Shared(c.size, c.frame, count))
    else Set(s, i, Shared(c.size, c.frame, count))
  }

  function LoadStep(s: State, i: nat): State
    requires i < |s.cells| && s.cells[i].Received?
  {
    var c := s.cells[i];
    Set(s, i, Received(c.data, c.calls + [Loaded(c.data)]))
  }

  ghost function PutStep(s: State, i: nat, call: nat): State
    requires i < |s.cells| && s.cells[i].Received?
  {
    var c := s.cells[i];
    if call < |c.calls| && c.calls[call].Loaded? then
      Set(Put(s, c.calls[call].buf), i, Received(c.data, c.calls[call := Returned(c.calls[call].buf)]))
    else s
  }

  function ClearStep(s: State, i: nat, call: nat): State
    requires i < |s.cells| && s.cells[i].Received?
  {
    var c := s.cells[i];
    if call < |c.calls| && c.calls[call].Returned? then Set(s, i, Received(None, c.calls[call := Over])) else s
  }

  ghost function CellStep(s: State, e: Event, i: nat): State
    requires i < |s.cells|
  {
    match (e, s.cells[i])
    case (StartFrame(_, n, from), Connection(Idle, _, assembly)) =>
      Set(Obtain(s, Get(n, from)), i, Connection(Reading(n), Some(Obtained(s, Get(n, from))), assembly))
    case (Decide(_, complete, fin, opcode), Connection(Reading(_), _, _)) => DecideStep(s, i, complete, fin, opcode)
    case (Append(_, tooLarge, cap), Connection(Appending(fin), _, assembly)) =>
      AppendStep(Resize(s, assembly, cap), i, fin, tooLarge)
    case (Leave(_), Connection(Leaving, closer, assembly)) => Set(Put(s, closer), i, Connection(Idle, None, assembly))
    case (CloseLoad(_), Received(_, _)) => LoadStep(s, i)
    case (ClosePut(_, call), Received(_, _)) => PutStep(s, i, call)
    case (CloseClear(_, call), Received(_, _)) => ClearStep(s, i, call)
    case (WriteBytes(_, cap), Writing(buf)) => Resize(s, buf, cap)
    case (EndWrite(_), Writing(buf)) => Set(Put(s, buf), i, Writing(None))
    case (BroadcastStep(_, step, from), Shared(_, _, _)) => BroadcastNext(s, i, step, from)
    case _ => s
  }

  /** Whether a frame of this length goes back to the pool. */
  ghost predicate FramePooled(s: State, size: nat) { IsShard(s.begin, s.end, Capacity(s.begin, s.end, size)) }

  predicate OfCell(e: Event) {
    !e.Connect? && !e.StartWrite? && !e.NewBroadcaster? && !e.Evict?
  }

  ghost function Next(s: State, e: Event): State {
    match e
    case Connect => Set(s, |s.cells|, Connection(Idle, None, None))
    case StartWrite(n, from) => Set(Obtain(s, Get(n, from)), |s.cells|, Writing(Some(Obtained(s, Get(n, from)))))
    case NewBroadcaster(payload) =>
      var size := payload + HEADER_SIZE;
      Set(s, |s.cells|, Shared(size, None, B.Init(FramePooled(s, size))))
    case Evict(j) => if j < |s.pool| then s.(pool := s.pool[..j] + s.pool[j + 1..]) else s
    case _ => if e.cell < |s.cells| then CellStep(s, e, e.cell) else s
  }

  predicate Active(c: Closer) { !c.Over? && c.buf.Some? }

  /** Some Close of the message has loaded its buffer and not cleared the pointer. */
  ghost predicate Overlaps(c: Cell)
    requires c.Received?
  {
    c.data.Some? && exists j :: 0 <= j < |c.calls| && Active(c.calls[j])
  }

  /** What callers owe: no goroutine starts to close a message while another has loaded its buffer
      and not cleared the pointer, and a broadcaster is not used once Close has been called on it. */
  ghost predicate Legal(s: State, e: Event) {
    match e
    case CloseLoad(i) => i < |s.cells| && s.cells[i].Received? ==> !Overlaps(s.cells[i])
    case BroadcastStep(i, step, _) => i < |s.cells| && s.cells[i].Shared? ==> B.Legal(s.cells[i].count, step)
    case _ => true
  }

  ghost function Run(s: State, events: seq<Event>): State
    decreases |events|
  {
    if events == [] then s else Run(Next(s, events[0]), events[1..])
  }

  ghost predicate LegalRun(s: State, events: seq<Event>)
    decreases |events|
  {
    events == [] || (Legal(s, events[0]) && LegalRun(Next(s, events[0]), events[1..]))
  }

  // ---------------------------------------------------------------- who owns what

  /** The message's buffer has been put back, though the pointer may still be set. */
  ghost predicate Gone(calls: seq<Closer>) {
    exists j :: 0 <= j < |calls| && calls[j].Returned? && calls[j].buf.Some?
  }

  /** The buffers a cell owns: a pointer that is stale but not yet cleared does not count. */
  ghost function Owned(c: Cell, second: bool): Option<Id> {
    match c
    case Connection(_, closer, assembly) => if second then assembly else closer
    case Received(data, calls) => if second || Gone(calls) then None else data
    case Writing(buf) => if second then None else buf
    case Shared(_, frame, count) => if second || count.closes > 0 then None else frame
  }

  ghost function OwnedAt(cells: seq<Cell>, i: nat, second: bool): Option<Id> {
    if i < |cells| then Owned(cells[i], second) else None
  }

  ghost predicate HasOwner(cells: seq<Cell>, b: Id) {
    exists i: nat, k: bool :: OwnedAt(cells, i, k) == Some(b)
  }

  ghost predicate OneOwner(cells: seq<Cell>) {
    forall i: nat, k: bool, j: nat, l: bool ::
      OwnedAt(cells, i, k).Some? && OwnedAt(cells, i, k) == OwnedAt(cells, j, l) ==> i == j && k == l
  }

  ghost predicate NoRepeats(pool: seq<Id>) {
    forall i, j :: 0 <= i < j < |pool| ==> pool[i] != pool[j]
  }

  ghost function Owners(cells: seq<Cell>, b: Id): nat { if HasOwner(cells, b) then 1 else 0 }

  /** A buffer has been put back once for each time it was handed out, but for its present owner;
      once dropped, it is never handed out again. */
  ghost predicate Accounted(s: State, b: Id) {
    && s.handed[b] == s.returned[b] + s.dropped[b] + Owners(s.cells, b)
    && (s.dropped[b] > 0 ==> b < |s.caps| && !Kept(s, b) && !HasOwner(s.cells, b))
    && (HasOwner(s.cells, b) ==> b < |s.caps|)
    && (b in s.pool ==> Kept(s, b) && !HasOwner(s.cells, b))
  }

  ghost predicate Ledger(s: State) {
    NoRepeats(s.pool) && OneOwner(s.cells) && forall b: Id :: Accounted(s, b)
  }

  /** Calls of Close still under way have loaded what the message still points to, and at most one
      of them a buffer. */
  ghost predicate ClosersInv(data: Option<Id>, calls: seq<Closer>) {
    && (forall j :: 0 <= j < |calls| && !calls[j].Over? ==> calls[j].buf == data)
    && (forall j, k :: 0 <= j < k < |calls| ==> !Active(calls[j]) || !Active(calls[k]))
  }

  ghost predicate CellInv(c: Cell) {
    match c
    case Connection(phase, closer, assembly) =>
      && (phase.Idle? ==> closer.None?) && (phase.Reading? || phase.Appending? ==> closer.Some?)
      && (phase.Appending? ==> assembly.Some?)
    case Received(data, calls) => ClosersInv(data, calls)
    case Writing(_) => true
    case Shared(_, frame, count) => B.Inv(count) && (frame.Some? <==> count.built == B.Ready)
  }

  ghost predicate CellsInv(cells: seq<Cell>) { forall i :: 0 <= i < |cells| ==> CellInv(cells[i]) }

  ghost predicate Inv(s: State) { Ledger(s) && CellsInv(s.cells) }

  // ---------------------------------------------------------------- how ownership changes

  /** Nothing but place (i, k) changes its owner. */
  ghost predicate Only(cells: seq<Cell>, cells': seq<Cell>, i: nat, k: bool) {
    forall j: nat, l: bool :: j != i || l != k ==> OwnedAt(cells', j, l) == OwnedAt(cells, j, l)
  }

  lemma SameHasOwner(cells: seq<Cell>, cells': seq<Cell>, b: Id)
    requires forall j: nat, l: bool :: OwnedAt(cells', j, l) == OwnedAt(cells, j, l)
    ensures HasOwner(cells', b) <==> HasOwner(cells, b)
  {
    hide OwnedAt;
    if HasOwner(cells, b) {
      var j: nat, l: bool :| OwnedAt(cells, j, l) == Some(b);
      assert OwnedAt(cells', j, l) == Some(b);
    }
  }

  lemma SameOwners(s: State, s': State)
    requires Ledger(s)
    requires forall j: nat, l: bool :: OwnedAt(s'.cells, j, l) == OwnedAt(s.cells, j, l)
    requires s' == s.(cells := s'.cells)
    ensures Ledger(s')
  {
    hide OwnedAt, HasOwner, Kept;
    forall b: Id
      ensures Accounted(s', b)
    {
      assert Accounted(s, b);
      SameHasOwner(s.cells, s'.cells, b);
      SameKept(s, s', b);
    }
  }

  lemma SameKept(s: State, s': State, b: Id)
    requires s'.begin == s.begin && s'.end == s.end
    requires s'.caps == s.caps || (s.caps < s'.caps && b < |s.caps|)
    ensures Kept(s', b) <==> Kept(s, b)
  {
    hide IsShard;
  }

  /** After the owner of one place has changed, b has an owner if it had one elsewhere or is there now. */
  lemma OwnersAfter(cells: seq<Cell>, cells': seq<Cell>, i: nat, k: bool, b: Id)
    requires Only(cells, cells', i, k) && OneOwner(cells)
    ensures HasOwner(cells', b) <==>
      OwnedAt(cells', i, k) == Some(b) || (HasOwner(cells, b) && OwnedAt(cells, i, k) != Some(b))
  {
    hide OwnedAt;
    if HasOwner(cells, b) {
      var j: nat, l: bool :| OwnedAt(cells, j, l) == Some(b);
      assert j != i || l != k ==> OwnedAt(cells', j, l) == Some(b);
    }
    if HasOwner(cells', b) {
      var j: nat, l: bool :| OwnedAt(cells', j, l) == Some(b);
      assert j != i || l != k ==> OwnedAt(cells, j, l) == Some(b);
    }
  }

  lemma OneOwnerAfter(cells: seq<Cell>, cells': seq<Cell>, i: nat, k: bool)
    requires Only(cells, cells', i, k) && OneOwner(cells)
    requires OwnedAt(cells', i, k).Some? ==> !HasOwner(cells, OwnedAt(cells', i, k).value)
    ensures OneOwner(cells')
  {
    hide OwnedAt;
  }

  lemma PoolWithout(pool: seq<Id>, j: nat)
    requires j < |pool| && NoRepeats(pool)
    ensures var rest := pool[..j] + pool[j + 1..];
      NoRepeats(rest) && pool[j] !in rest && forall b :: b in rest ==> b in pool
  {
    var rest := pool[..j] + pool[j + 1..];
    assert forall i :: 0 <= i < |rest| ==> rest[i] == pool[if i < j then i else i + 1];
  }

  /** What Obtain does to the pool and the counts. */
  lemma ObtainBasics(s: State, src: Source)
    requires Ledger(s)
    ensures var b, t := Obtained(s, src), Obtain(s, src);
      && !HasOwner(s.cells, b) && b !in t.pool && NoRepeats(t.pool) && s.dropped[b] == 0 && b < |t.caps|
      && (forall x :: x in t.pool ==> x in s.pool) && (t.caps == s.caps || s.caps < t.caps)
      && t == s.(pool := t.pool, caps := t.caps, handed := s.handed + multiset{b})
  {
    hide HasOwner, OneOwner, SizeClass, Capacity, IsShard;
    assert Accounted(s, Obtained(s, src));
    if Hits(s, src) {
      PoolWithout(s.pool, src.from.value);
      assert s.pool[src.from.value] in s.pool;
    } else {
      forall b | b in s.pool
        ensures b < |s.caps|
      {
        assert Accounted(s, b);
      }
    }
  }

  /** A pooled buffer of the size class is handed out again; nothing else changes hands. */
  lemma PooledIsReused(s: State, n: nat, j: nat)
    requires j < |s.pool| && s.pool[j] < |s.caps| && SizeClass(s.begin, n) <= s.end
    requires s.caps[s.pool[j]] == SizeClass(s.begin, n)
    ensures var t := Next(s, StartWrite(n, Some(j)));
      && t.cells == s.cells + [Writing(Some(s.pool[j]))]
      && t.pool == s.pool[..j] + s.pool[j + 1..] && t.caps == s.caps
  {
    hide SizeClass, Capacity;
  }

  lemma Takes(s: State, src: Source, s': State, i: nat, k: bool)
    requires Ledger(s) && Only(s.cells, s'.cells, i, k)
    requires OwnedAt(s.cells, i, k) == None && OwnedAt(s'.cells, i, k) == Some(Obtained(s, src))
    requires s' == Obtain(s, src).(cells := s'.cells)
    ensures Ledger(s')
  {
    hide OwnedAt, HasOwner, OneOwner, Only, NoRepeats, Obtain, Obtained, Kept;
    ObtainBasics(s, src);
    OneOwnerAfter(s.cells, s'.cells, i, k);
    forall b: Id
      ensures Accounted(s', b)
    {
      assert Accounted(s, b);
      OwnersAfter(s.cells, s'.cells, i, k, b);
      if b in s.pool { KeptExists(s, b); }
      if b < |s.caps| { SameKept(s, s', b); }
    }
  }

  lemma KeptExists(s: State, b: Id)
    ensures Kept(s, b) ==> b < |s.caps|
  {
  }

  lemma Returns(s: State, s': State, i: nat, k: bool)
    requires Ledger(s) && Only(s.cells, s'.cells, i, k) && OwnedAt(s'.cells, i, k) == None
    requires s' == Put(s, OwnedAt(s.cells, i, k)).(cells := s'.cells)
    ensures Ledger(s')
  {
    var o := OwnedAt(s.cells, i, k);
    assert o.Some? ==> HasOwner(s.cells, o.value);
    hide OwnedAt, HasOwner, OneOwner, Only, Kept;
    OneOwnerAfter(s.cells, s'.cells, i, k);
    if o.Some? { assert Accounted(s, o.value); }
    forall b: Id
      ensures Accounted(s', b)
    {
      assert Accounted(s, b);
      OwnersAfter(s.cells, s'.cells, i, k, b);
      SameKept(s, s', b);
    }
  }

  /** Writing into an owned buffer may change its capacity. */
  lemma Resizes(s: State, b: Id, cap: nat)
    requires Ledger(s) && HasOwner(s.cells, b)
    ensures Ledger(Resize(s, Some(b), cap))
  {
    hide HasOwner, OneOwner, NoRepeats, IsShard;
    var s' := Resize(s, Some(b), cap);
    assert Accounted(s, b);
    forall x: Id
      ensures Accounted(s', x)
    {
      assert Accounted(s, x);
    }
  }

  /** Ownership passes from place (i, k) to a new cell. */
  lemma Moves(s: State, s': State, i: nat, k: bool, c: Cell)
    requires Ledger(s) && i < |s.cells|
    requires Owned(c, false) == Owned(s.cells[i], k) && Owned(c, true) == None
    requires |s'.cells| == |s.cells| + 1 && s'.cells[|s.cells|] == c
    requires Only(s.cells, s'.cells[..|s.cells|], i, k) && Owned(s'.cells[i], k) == None
    requires s' == s.(cells := s'.cells)
    ensures Ledger(s')
  {
    var n := |s.cells|;
    var cells1 := s'.cells[..n];
    var o := OwnedAt(s.cells, i, k);
    assert o.Some? ==> HasOwner(s.cells, o.value);
    assert OwnedAt(cells1, i, k) == None;
    assert OwnedAt(cells1, n, false) == None && OwnedAt(s'.cells, n, false) == o;
    assert Only(cells1, s'.cells, n, false);
    hide OwnedAt, Only, Owned, Kept;
    OneOwnerAfter(s.cells, cells1, i, k);
    if o.Some? { OwnersAfter(s.cells, cells1, i, k, o.value); }
    OneOwnerAfter(cells1, s'.cells, n, false);
    hide HasOwner, OneOwner;
    forall b: Id
      ensures Accounted(s', b)
    {
      assert Accounted(s, b);
      OwnersAfter(s.cells, cells1, i, k, b);
      OwnersAfter(cells1, s'.cells, n, false, b);
      SameKept(s, s', b);
    }
  }

  // ---------------------------------------------------------------- every step

  /** Setting cell i to c leaves the places of other cells alone. */
  lemma SetOwned(cells: seq<Cell>, i: nat, c: Cell)
    requires i <= |cells|
    ensures var now := if i < |cells| then cells[i := c] else cells + [c];
      forall j: nat, l: bool :: OwnedAt(now, j, l) == if j == i then Owned(c, l) else OwnedAt(cells, j, l)
  {
    hide Owned;
    var now := if i < |cells| then cells[i := c] else cells + [c];
    forall j: nat, l: bool
      ensures OwnedAt(now, j, l) == if j == i then Owned(c, l) else OwnedAt(cells, j, l)
    {
      assert j < |cells| && j != i ==> now[j] == cells[j];
    }
  }

  lemma DecideInv(s: State, i: nat, complete: bool, fin: bool, opcode: Opcode)
    requires Ledger(s) && i < |s.cells| && s.cells[i].Connection? && CellInv(s.cells[i]) && s.cells[i].phase.Reading?
    ensures Ledger(DecideStep(s, i, complete, fin, opcode))
  {
    hide Ledger, Obtain, Obtained;
    var c, s' := s.cells[i], DecideStep(s, i, complete, fin, opcode);
    SameCells(s, NewBuffer(c.phase.n), None);
    SetOwned(s.cells, i, s'.cells[i]);
    NobodyCloses();
    if |s'.cells| > |s.cells| {
      assert s'.cells[..|s.cells|] == s.cells[i := s'.cells[i]];
      Moves(s, s', i, false, s'.cells[|s.cells|]);
    } else if s'.cells[i].assembly != c.assembly {
      Takes(s, NewBuffer(c.phase.n), s', i, true);
    } else {
      SameOwners(s, s');
    }
  }

  lemma NobodyCloses()
    ensures !Gone([])
  {
  }

  lemma AppendInv(s: State, i: nat, fin: bool, tooLarge: bool)
    requires Ledger(s) && i < |s.cells| && s.cells[i].Connection?
    ensures Ledger(AppendStep(s, i, fin, tooLarge))
  {
    hide Ledger;
    var c, s' := s.cells[i], AppendStep(s, i, fin, tooLarge);
    SetOwned(s.cells, i, s'.cells[i]);
    NobodyCloses();
    if |s'.cells| > |s.cells| {
      assert s'.cells[..|s.cells|] == s.cells[i := s'.cells[i]];
      Moves(s, s', i, true, s'.cells[|s.cells|]);
    } else {
      SameOwners(s, s');
    }
  }

  /** The frame is built while nothing has been put back, and put back at most once, as loaded. */
  lemma BroadcasterStep(c: B.State, e: B.Event)
    requires B.Inv(c) && B.Legal(c, e)
    ensures var n := B.Next(c, e);
      && B.Inv(n)
      && (n.built != c.built ==> n.closes == c.closes == 0 && c.built == B.NotYet)
      && (n.closes != c.closes ==> c.closes == 0 && n.closes == 1 && n.built == c.built)
      && (n.closes != c.closes && e.GoClose? ==> c.closing == B.CloseLoaded(c.built == B.Ready))
      && n.frees - c.frees == (if n.closes != c.closes && c.built == B.Ready && c.pooled then 1 else 0)
  {
    hide B.Pending, B.Tokens;
    B.NextInv(c, e);
    B.PooledStays(c, e);
  }

  lemma BroadcastInv(s: State, i: nat, step: B.Event, from: Option<nat>)
    requires Ledger(s) && i < |s.cells| && s.cells[i].Shared? && CellInv(s.cells[i])
    requires B.Legal(s.cells[i].count, step)
    ensures Ledger(BroadcastNext(s, i, step, from)) && CellInv(BroadcastNext(s, i, step, from).cells[i])
  {
    hide Ledger, B.Inv, B.Next, B.Legal, Obtain, Obtained, Put;
    var c, s' := s.cells[i], BroadcastNext(s, i, step, from);
    SameCells(s, Get(c.size, from), PutBack(c, step));
    BroadcasterStep(c.count, step);
    SetOwned(s.cells, i, s'.cells[i]);
    if s'.cells[i].frame != c.frame {
      Takes(s, Get(c.size, from), s', i, false);
    } else if s'.cells[i].count.closes != c.count.closes {
      assert PutBack(c, step) == c.frame;
      Returns(s, s', i, false);
    } else {
      SameOwners(s, s');
    }
  }

  lemma PutClosers(data: Option<Id>, calls: seq<Closer>, call: nat)
    requires ClosersInv(data, calls) && call < |calls| && calls[call].Loaded?
    ensures var now := calls[call := Returned(calls[call].buf)];
      && ClosersInv(data, now) && calls[call].buf == data
      && (data.Some? ==> !Gone(calls) && Gone(now)) && (data.None? ==> (Gone(now) <==> Gone(calls)))
  {
    var now := calls[call := Returned(calls[call].buf)];
    assert now[call].Returned? && calls[call].buf == data;
    assert forall j :: 0 <= j < |calls| && j != call ==> now[j] == calls[j];
    if data.Some? {
      assert Active(calls[call]);
    } else {
      assert forall j :: 0 <= j < |calls| && calls[j].Returned? ==> calls[j].buf == None;
    }
  }

  lemma ClearClosers(data: Option<Id>, calls: seq<Closer>, call: nat)
    requires ClosersInv(data, calls) && call < |calls| && calls[call].Returned?
    ensures ClosersInv(None, calls[call := Over])
    ensures data.Some? ==> Gone(calls)
  {
    var now := calls[call := Over];
    assert calls[call].buf == data;
    forall j | 0 <= j < |now| && !now[j].Over?
      ensures now[j].buf == None
    {
      assert now[j] == calls[j];
      assert data.Some? ==> Active(calls[call]) && Active(calls[j]);
    }
  }

  lemma LoadClosers(c: Cell)
    requires c.Received? && ClosersInv(c.data, c.calls) && !Overlaps(c)
    ensures ClosersInv(c.data, c.calls + [Loaded(c.data)]) && (Gone(c.calls + [Loaded(c.data)]) <==> Gone(c.calls))
  {
    var now := c.calls + [Loaded(c.data)];
    assert forall j :: 0 <= j < |c.calls| ==> now[j] == c.calls[j];
    if Gone(c.calls) {
      var j :| 0 <= j < |c.calls| && c.calls[j].Returned? && c.calls[j].buf.Some?;
      assert now[j] == c.calls[j];
    }
  }

  lemma LoadInv(s: State, i: nat)
    requires Ledger(s) && i < |s.cells| && s.cells[i].Received? && CellInv(s.cells[i]) && !Overlaps(s.cells[i])
    ensures Ledger(LoadStep(s, i)) && CellInv(LoadStep(s, i).cells[i])
  {
    hide Ledger, ClosersInv, Gone;
    LoadClosers(s.cells[i]);
    SetOwned(s.cells, i, LoadStep(s, i).cells[i]);
    SameOwners(s, LoadStep(s, i));
  }

  lemma PutInv(s: State, i: nat, call: nat)
    requires Ledger(s) && i < |s.cells| && s.cells[i].Received? && CellInv(s.cells[i])
    ensures Ledger(PutStep(s, i, call)) && |PutStep(s, i, call).cells| == |s.cells|
    ensures CellInv(PutStep(s, i, call).cells[i])
  {
    hide Ledger, ClosersInv, Gone, Put;
    var c, s' := s.cells[i], PutStep(s, i, call);
    if call < |c.calls| && c.calls[call].Loaded? {
      PutClosers(c.data, c.calls, call);
      SameCells(s, NewBuffer(0), c.data);
      SetOwned(s.cells, i, s'.cells[i]);
      if c.data.Some? {
        Returns(s, s', i, false);
      } else {
        PutNothing(s);
        SameOwners(s, s');
      }
    }
  }

  lemma PutNothing(s: State)
    ensures Put(s, None) == s
  {
  }

  lemma ClearInv(s: State, i: nat, call: nat)
    requires Ledger(s) && i < |s.cells| && s.cells[i].Received? && CellInv(s.cells[i])
    ensures Ledger(ClearStep(s, i, call)) && |ClearStep(s, i, call).cells| == |s.cells|
    ensures CellInv(ClearStep(s, i, call).cells[i])
  {
    hide Ledger, ClosersInv, Gone;
    var c, s' := s.cells[i], ClearStep(s, i, call);
    if call < |c.calls| && c.calls[call].Returned? {
      ClearClosers(c.data, c.calls, call);
      SetOwned(s.cells, i, s'.cells[i]);
      SameOwners(s, s');
    }
  }

  lemma SameCells(s: State, src: Source, b: Option<Id>)
    ensures Obtain(s, src).cells == s.cells && Put(s, b).cells == s.cells
  {
  }

  lemma SameResized(s: State, b: Option<Id>, cap: nat)
    ensures Resize(s, b, cap).cells == s.cells
  {
  }

  lemma LeaveStep(s: State, s': State, i: nat, b: Option<Id>)
    requires Ledger(s) && i < |s.cells| && Owned(s.cells[i], false) == b
    requires |s'.cells| == |s.cells| && s' == Set(Put(s, b), i, s'.cells[i])
    requires Owned(s'.cells[i], false) == None && Owned(s'.cells[i], true) == Owned(s.cells[i], true)
    ensures Ledger(s')
  {
    hide Ledger, Put;
    SameCells(s, NewBuffer(0), b);
    SetOwned(s.cells, i, s'.cells[i]);
    Returns(s, s', i, false);
  }

  lemma ResizeOwned(s: State, i: nat, k: bool, b: Option<Id>, cap: nat)
    requires Ledger(s) && OwnedAt(s.cells, i, k) == b
    ensures Ledger(Resize(s, b, cap))
  {
    if b.Some? {
      assert HasOwner(s.cells, b.value);
      hide Ledger, HasOwner, OwnedAt;
      Resizes(s, b.value, cap);
    }
  }

  lemma CellStepLedger(s: State, e: Event, i: nat)
    requires Inv(s) && i < |s.cells| && Legal(s, e) && OfCell(e) && e.cell == i
    ensures Ledger(CellStep(s, e, i))
  {
    hide Ledger, CellInv, DecideStep, AppendStep, BroadcastNext, LoadStep, PutStep, ClearStep, Obtain, Obtained, Put,
         Resize, B.Legal, Overlaps, Gone;
    var s' := CellStep(s, e, i);
    assert CellInv(s.cells[i]);
    match (e, s.cells[i])
    case (StartFrame(_, n, from), Connection(Idle, _, _)) =>
      IdleHoldsNothing(s.cells[i]);
      SameCells(s, Get(n, from), None);
      SetOwned(s.cells, i, s'.cells[i]);
      Takes(s, Get(n, from), s', i, false);
    case (Decide(_, complete, fin, opcode), Connection(Reading(_), _, _)) => DecideInv(s, i, complete, fin, opcode);
    case (Append(_, tooLarge, cap), Connection(Appending(fin), _, assembly)) =>
      ResizeOwned(s, i, true, assembly, cap);
      SameResized(s, assembly, cap);
      AppendInv(Resize(s, assembly, cap), i, fin, tooLarge);
    case (Leave(_), Connection(Leaving, closer, _)) =>
      SameCells(s, NewBuffer(0), closer);
      LeaveStep(s, s', i, closer);
    case (CloseLoad(_), Received(_, _)) => LoadInv(s, i);
    case (ClosePut(_, call), Received(_, _)) => PutInv(s, i, call);
    case (CloseClear(_, call), Received(_, _)) => ClearInv(s, i, call);
    case (WriteBytes(_, cap), Writing(buf)) => ResizeOwned(s, i, false, buf, cap);
    case (EndWrite(_), Writing(buf)) =>
      SameCells(s, NewBuffer(0), buf);
      LeaveStep(s, s', i, buf);
    case (BroadcastStep(_, step, from), Shared(_, _, _)) => BroadcastInv(s, i, step, from);
    case _ =>
  }

  lemma IdleHoldsNothing(c: Cell)
    requires CellInv(c) && c.Connection? && c.phase.Idle?
    ensures c.closer == None
  {
  }

  lemma SetCells(cells: seq<Cell>, i: nat, c: Cell)
    requires i <= |cells| && CellsInv(cells) && CellInv(c)
    ensures CellsInv(if i < |cells| then cells[i := c] else cells + [c])
  {
    hide CellInv;
  }

  lemma NewMessage(b: Option<Id>)
    ensures CellInv(Received(b, []))
  {
  }

  lemma DecideCells(s: State, i: nat, complete: bool, fin: bool, opcode: Opcode)
    requires CellsInv(s.cells) && i < |s.cells| && s.cells[i].Connection? && s.cells[i].phase.Reading?
    ensures CellsInv(DecideStep(s, i, complete, fin, opcode).cells)
  {
    var s' := DecideStep(s, i, complete, fin, opcode);
    assert CellInv(s.cells[i]) && CellInv(s'.cells[i]);
    NewMessage(s.cells[i].closer);
    SetCells(s.cells, i, s'.cells[i]);
    if |s'.cells| > |s.cells| {
      SetCells(s.cells[i := s'.cells[i]], |s.cells|, s'.cells[|s.cells|]);
    }
  }

  lemma AppendCells(s: State, i: nat, fin: bool, tooLarge: bool)
    requires CellsInv(s.cells) && i < |s.cells| && s.cells[i].Connection?
    ensures CellsInv(AppendStep(s, i, fin, tooLarge).cells)
  {
    var s' := AppendStep(s, i, fin, tooLarge);
    assert CellInv(s'.cells[i]);
    NewMessage(s.cells[i].assembly);
    SetCells(s.cells, i, s'.cells[i]);
    if |s'.cells| > |s.cells| {
      SetCells(s.cells[i := s'.cells[i]], |s.cells|, s'.cells[|s.cells|]);
    }
  }

  /** What a step leaves in its own cell satisfies the cell's invariant. */
  lemma CellStepCell(s: State, e: Event, i: nat)
    requires Ledger(s) && i < |s.cells| && CellInv(s.cells[i]) && Legal(s, e) && OfCell(e) && e.cell == i
    requires !e.Decide? && !e.Append?
    ensures i < |CellStep(s, e, i).cells| && CellInv(CellStep(s, e, i).cells[i])
    ensures CellStep(s, e, i).cells == s.cells[i := CellStep(s, e, i).cells[i]]
  {
    hide Ledger, CellsInv, Obtain, Obtained, Put, Resize, B.Inv, B.Legal, B.Next, ClosersInv, Overlaps, Gone;
    match (e, s.cells[i])
    case (StartFrame(_, n, from), Connection(Idle, _, _)) => SameCells(s, Get(n, from), None);
    case (Leave(_), Connection(Leaving, closer, _)) => SameCells(s, NewBuffer(0), closer);
    case (CloseLoad(_), Received(_, _)) => LoadInv(s, i);
    case (ClosePut(_, call), Received(data, calls)) =>
      PutInv(s, i, call);
      if call < |calls| && calls[call].Loaded? { SameCells(s, NewBuffer(0), calls[call].buf); }
    case (CloseClear(_, call), Received(_, _)) => ClearInv(s, i, call);
    case (WriteBytes(_, cap), Writing(buf)) => SameResized(s, buf, cap);
    case (EndWrite(_), Writing(buf)) => SameCells(s, NewBuffer(0), buf);
    case (BroadcastStep(_, step, from), Shared(size, _, _)) =>
      BroadcastInv(s, i, step, from);
      SameCells(s, Get(size, from), PutBack(s.cells[i], step));
    case _ =>
  }

  lemma CellStepCells(s: State, e: Event, i: nat)
    requires Inv(s) && i < |s.cells| && Legal(s, e) && OfCell(e) && e.cell == i
    ensures CellsInv(CellStep(s, e, i).cells)
  {
    assert CellInv(s.cells[i]);
    hide Ledger, CellsInv, CellInv, DecideStep, AppendStep, BroadcastNext, LoadStep, PutStep, ClearStep, Obtain,
         Obtained, Put, Resize, Legal, Set;
    if e.Decide? || e.Append? {
      match (e, s.cells[i])
      case (Decide(_, complete, fin, opcode), Connection(Reading(_), _, _)) => DecideCells(s, i, complete, fin, opcode);
      case (Append(_, tooLarge, cap), Connection(Appending(fin), _, assembly)) =>
        SameResized(s, assembly, cap);
        AppendCells(Resize(s, assembly, cap), i, fin, tooLarge);
      case _ =>
    } else {
      CellStepCell(s, e, i);
      SetCells(s.cells, i, CellStep(s, e, i).cells[i]);
    }
  }

  lemma NextInv(s: State, e: Event)
    requires Inv(s) && Legal(s, e)
    ensures Inv(Next(s, e))
  {
    var s' := Next(s, e);
    hide Ledger, CellInv, CellsInv, CellStep, Legal, Obtain, Obtained, FramePooled;
    match e
    case Connect =>
      NewCellInv(false);
      SetOwned(s.cells, |s.cells|, s'.cells[|s.cells|]);
      SetCells(s.cells, |s.cells|, s'.cells[|s.cells|]);
      SameOwners(s, s');
    case NewBroadcaster(payload) =>
      NewCellInv(FramePooled(s, payload + HEADER_SIZE));
      SetOwned(s.cells, |s.cells|, s'.cells[|s.cells|]);
      SetCells(s.cells, |s.cells|, s'.cells[|s.cells|]);
      SameOwners(s, s');
    case StartWrite(n, from) =>
      SameCells(s, Get(n, from), None);
      NewCellInv(false);
      SetOwned(s.cells, |s.cells|, s'.cells[|s.cells|]);
      SetCells(s.cells, |s.cells|, s'.cells[|s.cells|]);
      Takes(s, Get(n, from), s', |s.cells|, false);
    case Evict(j) => EvictLedger(s, j);
    case _ =>
      if e.cell < |s.cells| {
        CellStepLedger(s, e, e.cell);
        CellStepCells(s, e, e.cell);
      }
  }

  lemma EvictLedger(s: State, j: nat)
    requires Ledger(s)
    ensures Ledger(Next(s, Evict(j)))
  {
    hide HasOwner, OneOwner, IsShard;
    if j < |s.pool| {
      PoolWithout(s.pool, j);
      var s' := Next(s, Evict(j));
      forall b: Id
        ensures Accounted(s', b)
      {
        assert Accounted(s, b);
      }
    }
  }

  lemma NewCellInv(pooled: bool)
    ensures CellInv(Connection(Idle, None, None))
    ensures forall n: nat :: CellInv(Shared(n, None, B.Init(pooled)))
    ensures forall b :: CellInv(Writing(b))
  {
    B.InitInv(pooled);
  }

  lemma InitInv(begin: nat, end: nat)
    ensures Inv(Init(begin, end))
  {
    forall b: Id
      ensures Accounted(Init(begin, end), b)
    {
    }
  }

  lemma {:induction false} RunInv(s: State, events: seq<Event>)
    requires Inv(s) && LegalRun(s, events)
    ensures Inv(Run(s, events))
    decreases |events|
  {
    hide Inv, Next, Legal;
    if events != [] {
      NextInv(s, events[0]);
      RunInv(Next(s, events[0]), events[1..]);
    }
  }

  /** Over every interleaving: no buffer is pooled twice, none is both pooled and owned, no two
      owners share one, and each is put back exactly once for each time it was handed out, except
      the last time while its owner still has it. No broadcast writes a frame back in the pool. */
  lemma BuffersHaveOneOwner(begin: nat, end: nat, events: seq<Event>)
    requires LegalRun(Init(begin, end), events)
    ensures var s := Run(Init(begin, end), events);
      && NoRepeats(s.pool) && OneOwner(s.cells)
      && (forall b: Id :: b in s.pool ==> !HasOwner(s.cells, b) && Kept(s, b))
      && (forall b: Id :: s.handed[b] == s.returned[b] + s.dropped[b] + Owners(s.cells, b))
      && (forall i :: 0 <= i < |s.cells| && s.cells[i].Shared? ==> s.cells[i].count.lateWrites == 0)
  {
    InitInv(begin, end);
    hide Run, LegalRun, OneOwner, NoRepeats, Kept, HasOwner, Owners, Init;
    RunInv(Init(begin, end), events);
    var s := Run(Init(begin, end), events);
    forall b: Id
      ensures s.handed[b] == s.returned[b] + s.dropped[b] + Owners(s.cells, b)
      ensures b in s.pool ==> !HasOwner(s.cells, b) && Kept(s, b)
    {
      assert Accounted(s, b);
    }
    forall i | 0 <= i < |s.cells| && s.cells[i].Shared?
      ensures s.cells[i].count.lateWrites == 0
    {
      assert CellInv(s.cells[i]);
    }
  }

  // ---------------------------------------------------------------- broadcast frames and the pool

  /** A broadcaster knows whether a shard has its frame's capacity. */
  ghost predicate FrameInv(s: State, c: Cell) {
    c.Shared? ==>
      && c.count.pooled == FramePooled(s, c.size)
      && (c.frame.Some? && c.count.closes == 0 ==>
            c.frame.value < |s.caps| && s.caps[c.frame.value] == Capacity(s.begin, s.end, c.size))
  }

  ghost predicate FramesInv(s: State) { forall i :: 0 <= i < |s.cells| ==> FrameInv(s, s.cells[i]) }

  /** What a step of cell i leaves alone: other cells, and the capacities of buffers they own. */
  ghost predicate Confined(s: State, s': State, i: nat)
    requires i < |s.cells|
  {
    && s'.begin == s.begin && s'.end == s.end && |s.cells| <= |s'.cells| && |s.caps| <= |s'.caps|
    && (forall j :: 0 <= j < |s.cells| && j != i ==> s'.cells[j] == s.cells[j])
    && (forall j :: |s.cells| <= j < |s'.cells| ==> s'.cells[j].Received?)
    && (s'.cells[i].Shared? <==> s.cells[i].Shared?)
    && (forall b :: 0 <= b < |s.caps| && !s.cells[i].Shared? ==>
          s'.caps[b] == s.caps[b] || OwnedAt(s.cells, i, false) == Some(b) || OwnedAt(s.cells, i, true) == Some(b))
    && (forall b :: 0 <= b < |s.caps| && s.cells[i].Shared? ==> s'.caps[b] == s.caps[b])
  }

  lemma ObtainShape(s: State, src: Source, b: Option<Id>)
    ensures var t := Obtain(s, src);
      t.begin == s.begin && t.end == s.end && t.cells == s.cells && (t.caps == s.caps || s.caps < t.caps)
    ensures var t := Put(s, b); t.begin == s.begin && t.end == s.end && t.cells == s.cells && t.caps == s.caps
  {
  }

  lemma DecideConfined(s: State, i: nat, complete: bool, fin: bool, opcode: Opcode)
    requires i < |s.cells| && s.cells[i].Connection? && s.cells[i].phase.Reading?
    ensures Confined(s, DecideStep(s, i, complete, fin, opcode), i)
  {
    hide Obtain, Obtained;
    ObtainShape(s, NewBuffer(s.cells[i].phase.n), None);
  }

  lemma AppendConfined(s: State, i: nat, fin: bool, tooLarge: bool, cap: nat)
    requires i < |s.cells| && s.cells[i].Connection?
    ensures Confined(s, AppendStep(Resize(s, s.cells[i].assembly, cap), i, fin, tooLarge), i)
  {
  }

  lemma CloseConfined(s: State, i: nat, call: nat)
    requires i < |s.cells| && s.cells[i].Received?
    ensures Confined(s, LoadStep(s, i), i) && Confined(s, PutStep(s, i, call), i)
    ensures Confined(s, ClearStep(s, i, call), i)
  {
    hide Put, Gone;
    var calls := s.cells[i].calls;
    if call < |calls| { ObtainShape(s, NewBuffer(0), if calls[call].Loaded? then calls[call].buf else None); }
  }

  lemma StepConfined(s: State, e: Event, i: nat)
    requires i < |s.cells| && OfCell(e) && e.cell == i
    ensures Confined(s, CellStep(s, e, i), i)
  {
    hide Obtain, Obtained, Put, B.Next, Gone, DecideStep, AppendStep, LoadStep, PutStep, ClearStep;
    match (e, s.cells[i])
    case (StartFrame(_, n, from), Connection(Idle, _, _)) => ObtainShape(s, Get(n, from), None);
    case (Decide(_, complete, fin, opcode), Connection(Reading(n), _, _)) =>
      DecideConfined(s, i, complete, fin, opcode);
    case (Append(_, tooLarge, cap), Connection(Appending(fin), _, _)) => AppendConfined(s, i, fin, tooLarge, cap);
    case (Leave(_), Connection(Leaving, closer, _)) => ObtainShape(s, NewBuffer(0), closer);
    case (CloseLoad(_), Received(_, _)) => CloseConfined(s, i, 0);
    case (ClosePut(_, call), Received(_, _)) => CloseConfined(s, i, call);
    case (CloseClear(_, call), Received(_, _)) => CloseConfined(s, i, call);
    case (EndWrite(_), Writing(buf)) => ObtainShape(s, NewBuffer(0), buf);
    case (BroadcastStep(_, step, from), Shared(size, _, _)) =>
      ObtainShape(s, Get(size, from), PutBack(s.cells[i], step));
    case _ =>
  }

  lemma ObtainedCap(s: State, n: nat, from: Option<nat>)
    ensures var b, t := Obtained(s, Get(n, from)), Obtain(s, Get(n, from));
      b < |t.caps| && t.caps[b] == Capacity(s.begin, s.end, n)
  {
    hide SizeClass;
  }

  lemma BroadcastFrame(s: State, i: nat, step: B.Event, from: Option<nat>)
    requires Inv(s) && i < |s.cells| && s.cells[i].Shared? && FrameInv(s, s.cells[i])
    requires B.Legal(s.cells[i].count, step)
    ensures var s' := BroadcastNext(s, i, step, from);
      i < |s'.cells| && FrameInv(s', s'.cells[i])
    ensures var s' := BroadcastNext(s, i, step, from);
      s'.cells[i].Shared? && s'.cells[i].count.frees - s.cells[i].count.frees == |s'.returned| - |s.returned|
  {
    assert CellInv(s.cells[i]);
    hide Ledger, B.Inv, B.Next, B.Legal, Obtain, Obtained, IsShard, Capacity;
    var c := s.cells[i];
    BroadcasterStep(c.count, step);
    B.PooledStays(c.count, step);
    ObtainShape(s, Get(c.size, from), PutBack(c, step));
    ObtainedCap(s, c.size, from);
    ObtainReturned(s, Get(c.size, from));
  }

  lemma ObtainReturned(s: State, src: Source)
    ensures Obtain(s, src).returned == s.returned
  {
  }

  lemma OwnsFrame(s: State, j: nat, i: nat)
    requires Ledger(s) && j < |s.cells| && j != i && s.cells[j].Shared?
    requires s.cells[j].frame.Some? && s.cells[j].count.closes == 0
    ensures var b := s.cells[j].frame.value;
      b < |s.caps| && OwnedAt(s.cells, i, false) != Some(b) && OwnedAt(s.cells, i, true) != Some(b)
  {
    var b := s.cells[j].frame.value;
    assert OwnedAt(s.cells, j, false) == Some(b);
    assert HasOwner(s.cells, b) && Accounted(s, b);
  }

  lemma NextFrames(s: State, e: Event)
    requires Inv(s) && FramesInv(s) && Legal(s, e)
    ensures FramesInv(Next(s, e))
  {
    var s' := Next(s, e);
    if OfCell(e) {
      if e.cell < |s.cells| {
        var i := e.cell;
        StepConfined(s, e, i);
        forall j | 0 <= j < |s'.cells|
          ensures FrameInv(s', s'.cells[j])
        {
          hide CellStep, Ledger, Capacity, IsShard, CellInv;
          if j < |s.cells| {
            assert FrameInv(s, s.cells[j]);
            if j != i {
              if s.cells[j].Shared? && s.cells[j].frame.Some? && s.cells[j].count.closes == 0 { OwnsFrame(s, j, i); }
            } else {
              OwnFrame(s, e, i);
            }
          }
        }
      }
    } else {
      NewFrames(s, e);
    }
  }

  lemma OwnFrame(s: State, e: Event, i: nat)
    requires Inv(s) && FramesInv(s) && Legal(s, e) && OfCell(e) && e.cell == i < |s.cells|
    requires Confined(s, CellStep(s, e, i), i)
    ensures FrameInv(CellStep(s, e, i), CellStep(s, e, i).cells[i])
  {
    assert FrameInv(s, s.cells[i]);
    if s.cells[i].Shared? && e.BroadcastStep? {
      BroadcastFrame(s, i, e.step, e.from);
    }
  }

  lemma NewFrames(s: State, e: Event)
    requires Inv(s) && FramesInv(s) && !OfCell(e)
    ensures FramesInv(Next(s, e))
  {
    hide Obtain, Obtained, Ledger, CellInv, Capacity, IsShard;
    if e.StartWrite? { ObtainShape(s, Get(e.n, e.from), None); }
    var s' := Next(s, e);
    forall j | 0 <= j < |s'.cells|
      ensures FrameInv(s', s'.cells[j])
    {
      if j < |s.cells| { assert FrameInv(s, s.cells[j]); }
    }
  }

  lemma {:induction false} RunFrames(s: State, events: seq<Event>)
    requires Inv(s) && FramesInv(s) && LegalRun(s, events)
    ensures FramesInv(Run(s, events))
    decreases |events|
  {
    hide Inv, FramesInv, Next, Legal;
    if events != [] {
      NextInv(s, events[0]);
      NextFrames(s, events[0]);
      RunFrames(Next(s, events[0]), events[1..]);
    }
  }

  /** What the broadcaster's count of frees counts is what the pool gets back: over every run, a
      step of a broadcaster returns a buffer to the pool exactly when it counts a free. */
  lemma FreesAreReturns(begin: nat, end: nat, events: seq<Event>, i: nat, step: B.Event, from: Option<nat>)
    requires LegalRun(Init(begin, end), events)
    requires var s := Run(Init(begin, end), events);
      i < |s.cells| && s.cells[i].Shared? && B.Legal(s.cells[i].count, step)
    ensures var s := Run(Init(begin, end), events);
      && s.cells[i].count.pooled == IsShard(s.begin, s.end, Capacity(s.begin, s.end, s.cells[i].size))
      && BroadcastNext(s, i, step, from).cells[i].Shared?
      && BroadcastNext(s, i, step, from).cells[i].count.frees - s.cells[i].count.frees
         == |BroadcastNext(s, i, step, from).returned| - |s.returned|
  {
    InitInv(begin, end);
    hide Inv, Next, Legal, BroadcastNext, B.Legal, IsShard, Capacity;
    RunInv(Init(begin, end), events);
    RunFrames(Init(begin, end), events);
    var s := Run(Init(begin, end), events);
    assert FrameInv(s, s.cells[i]);
    BroadcastFrame(s, i, step, from);
  }

  // ---------------------------------------------------------------- the same branches as the reader

  /** The two steps that follow ReadN, for a frame whose bytes would make the message `buffer`. */
  ghost function FrameSteps(s: State, i: nat, fin: bool, opcode: Opcode, tooLarge: bool, cap: nat): State {
    Next(Next(s, Decide(i, true, fin, opcode)), Append(i, tooLarge, cap))
  }

  lemma AfterDecide(s: State, i: nat, fin: bool, opcode: Opcode)
    requires i < |s.cells| && s.cells[i].Connection? && s.cells[i].phase.Reading?
    ensures var c, s' := s.cells[i], Next(s, Decide(i, true, fin, opcode));
      if (opcode == CONTINUATION) != c.assembly.Some? then
        |s'.cells| == |s.cells| && s'.cells[i] == c.(phase := Leaving)
      else if fin && opcode != CONTINUATION then
        && |s'.cells| == |s.cells| + 1 && s'.cells[i] == c.(phase := Leaving, closer := None)
        && s'.cells[|s.cells|] == Received(c.closer, [])
      else
        && |s'.cells| == |s.cells| && s'.cells[i].Connection? && s'.cells[i].phase == Appending(fin)
        && s'.cells[i].closer == c.closer && s'.cells[i].assembly.Some?
  {
    hide Obtain, Obtained;
    SameCells(s, NewBuffer(s.cells[i].phase.n), None);
  }

  lemma AfterAppend(s: State, i: nat, tooLarge: bool, cap: nat)
    requires i < |s.cells| && s.cells[i].Connection?
    ensures var c, s' := s.cells[i], Next(s, Append(i, tooLarge, cap));
      if !c.phase.Appending? then s' == s
      else if tooLarge || !c.phase.fin then |s'.cells| == |s.cells| && s'.cells[i] == c.(phase := Leaving)
      else
        && |s'.cells| == |s.cells| + 1 && s'.cells[i] == c.(phase := Leaving, assembly := None)
        && s'.cells[|s.cells|] == Received(c.assembly, [])
  {
  }

  /** What happens to the buffers is what the reader decides about the bytes: a message is
      delivered with one new owner (the pooled buffer itself when it came in one frame), and
      assembly is under way exactly while the continuation frame is initialized. */
  lemma BuffersFollowTheReader(
    s: State, i: nat, cfg: R.Config, cont: R.Continuation, fin: bool, opcode: Opcode, p: seq<Byte>, cap: nat)
    requires i < |s.cells| && s.cells[i].Connection? && s.cells[i].phase.Reading? && s.cells[i].closer.Some?
    requires s.cells[i].assembly.Some? <==> cont.initialized
    ensures var (c, r) := R.AcceptData(cfg, cont, fin, opcode, p);
      var s' := FrameSteps(s, i, fin, opcode, |c.buffer| > cfg.readMax, cap);
      && s'.cells[i].Connection? && s'.cells[i].phase.Leaving?
      && (s'.cells[i].assembly.Some? <==> c.initialized)
      && |s'.cells| == |s.cells| + (if r.Delivered? then 1 else 0)
      && (r.Delivered? ==> Owned(s'.cells[|s.cells|], false).Some?)
      && (r.Delivered? && opcode != CONTINUATION ==> Owned(s'.cells[|s.cells|], false) == s.cells[i].closer)
      && (r.Delivered? && opcode == CONTINUATION ==> Owned(s'.cells[|s.cells|], false) == s.cells[i].assembly)
      && (s.cells[i].assembly.Some? && c.initialized ==> s'.cells[i].assembly == s.cells[i].assembly)
      && (s'.cells[i].closer.None? <==> r.Delivered? && opcode != CONTINUATION)
  {
    NobodyCloses();
    var (c, r) := R.AcceptData(cfg, cont, fin, opcode, p);
    AfterDecide(s, i, fin, opcode);
    AfterAppend(Next(s, Decide(i, true, fin, opcode)), i, |c.buffer| > cfg.readMax, cap);
    hide Next, Gone;
  }
}
