/** What every legal sequence of deque operations guarantees (internal/deque.go): no slot
    leaks, the slice grows only to the peak number of live elements, an address keeps
    naming the same element while that element lives, and the whole structure behaves as
    a linked list whose elements have identities that are never reused. */
module DequeRuns {
  import opened DequeModel

  ghost predicate LegalRun<T>(s: Store<T>, ops: seq<Op<T>>)
    decreases |ops|
  {
    ops == [] || (Legal(s, ops[0]) && LegalRun(Apply(s, ops[0]), ops[1..]))
  }

  ghost function Run<T>(s: Store<T>, ops: seq<Op<T>>): Store<T>
    requires LegalRun(s, ops)
    decreases |ops|
  {
    if ops == [] then s else Run(Apply(s, ops[0]), ops[1..])
  }

  // ---------------------------------------------------------------- slots

  lemma {:induction false} RunWf<T>(s: Store<T>, ops: seq<Op<T>>)
    requires Wf(s) && LegalRun(s, ops)
    ensures Wf(Run(s, ops))
    decreases |ops|
  {
    if ops != [] {
      ApplyWf(s, ops[0]);
      RunWf(Apply(s, ops[0]), ops[1..]);
    }
  }

  ghost function UpTo(n: nat): (r: set<nat>)
    ensures |r| == n && forall a :: a in r <==> 1 <= a <= n
  {
    if n == 0 then {} else UpTo(n - 1) + {n}
  }

  lemma {:induction false} AddrsSize<T>(items: seq<Item<T>>)
    requires Distinct(items)
    ensures |set i | 0 <= i < |items| :: items[i].addr| == |items|
  {
    if items != [] {
      var init, last := items[..|items| - 1], items[|items| - 1];
      AddrsSize(init);
      assert (set i | 0 <= i < |items| :: items[i].addr) == (set i | 0 <= i < |init| :: init[i].addr) + {last.addr};
    }
  }

  lemma {:induction false} FreeSize(free: seq<nat>)
    requires forall i, j :: 0 <= i < j < |free| ==> free[i] != free[j]
    ensures |set i | 0 <= i < |free| :: free[i]| == |free|
  {
    if free != [] {
      var init, last := free[..|free| - 1], free[|free| - 1];
      FreeSize(init);
      assert (set i | 0 <= i < |free| :: free[i]) == (set i | 0 <= i < |init| :: init[i]) + {last};
    }
  }

  lemma SubsetOfSameSize<S>(a: set<S>, b: set<S>)
    requires a <= b && |a| == |b|
    ensures a == b
  {
    assert |b - a| == |b| - |a|;
    assert b == a + (b - a);
  }

  /** Every slot but the nil slot is live or free, and never both. */
  lemma SlotsPartition<T>(s: Store<T>, ops: seq<Op<T>>, a: nat)
    requires Wf(s) && LegalRun(s, ops) && 1 <= a < Run(s, ops).slots
    ensures Live(Run(s, ops).items, a) <==> a !in Run(s, ops).free
  {
    RunWf(s, ops);
    var r := Run(s, ops);
    var live := set i | 0 <= i < |r.items| :: r.items[i].addr;
    var free := set i | 0 <= i < |r.free| :: r.free[i];
    AddrsSize(r.items);
    FreeSize(r.free);
    assert live !! free;
    SubsetOfSameSize(live + free, UpTo(r.slots - 1));
    assert a in live + free;
  }

  /** The peak number of live elements since the deque was last empty; h is the peak so far. */
  ghost function Peak<T>(s: Store<T>, ops: seq<Op<T>>, h: nat): nat
    requires LegalRun(s, ops)
    decreases |ops|
  {
    if ops == [] then h
    else
      var s' := Apply(s, ops[0]);
      Peak(s', ops[1..], if s'.items == [] then 0 else if |s'.items| > h then |s'.items| else h)
  }

  ghost predicate AtPeak<T>(s: Store<T>, h: nat) {
    if s.items == [] then s.slots <= 1 && h == 0 else s.slots == h + 1
  }

  /** The slice holds the nil slot and exactly as many more as were ever live at once. */
  lemma {:induction false} SlotsArePeak<T>(s: Store<T>, ops: seq<Op<T>>, h: nat)
    requires Wf(s) && LegalRun(s, ops) && AtPeak(s, h)
    ensures AtPeak(Run(s, ops), Peak(s, ops, h))
    decreases |ops|
  {
    if ops != [] {
      var s' := Apply(s, ops[0]);
      ApplyWf(s, ops[0]);
      SlotsArePeak(s', ops[1..], if s'.items == [] then 0 else if |s'.items| > h then |s'.items| else h);
    }
  }

  // ---------------------------------------------------------------- identities

  /** A linked list as container/list has it: cells carry identities handed out once. Here
      `addr` is such an identity, and `next` has not been handed out yet. */
  datatype PList<T> = PList(cells: seq<Item<T>>, next: nat)

  /** The same operation, said of the element the client holds rather than of its address. */
  function Named<T>(op: Op<T>, names: map<nat, nat>): Op<T> {
    match op
    case InsertAfter(v, mark) => if mark in names then Op.InsertAfter(v, names[mark]) else op
    case InsertBefore(v, mark) => if mark in names then Op.InsertBefore(v, names[mark]) else op
    case MoveToFront(a) => if a in names then Op.MoveToFront(names[a]) else op
    case MoveToBack(a) => if a in names then Op.MoveToBack(names[a]) else op
    case Update(a, v) => if a in names then Op.Update(names[a], v) else op
    case Remove(a) => if a in names then Op<T>.Remove(names[a]) else op
    case _ => op
  }

  ghost predicate ListLegal<T>(l: PList<T>, op: Op<T>) {
    match op
    case InsertAfter(_, mark) => mark == NIL || Live(l.cells, mark)
    case InsertBefore(_, mark) => mark == NIL || Live(l.cells, mark)
    case MoveToFront(a) => a == NIL || Live(l.cells, a)
    case MoveToBack(a) => a == NIL || Live(l.cells, a)
    case Update(a, _) => a == NIL || Live(l.cells, a)
    case Remove(a) => a == NIL || Live(l.cells, a)
    case _ => true
  }

  function Added<T>(l: PList<T>, k: nat, value: T): PList<T>
    requires k <= |l.cells|
  {
    PList(With(l.cells, k, Item(l.next, value)), l.next + 1)
  }

  ghost function ListApply<T>(l: PList<T>, op: Op<T>): PList<T>
    requires ListLegal(l, op)
  {
    match op
    case PushFront(v) => Added(l, 0, v)
    case PushBack(v) => Added(l, |l.cells|, v)
    case PopFront => if l.cells == [] then l else l.(cells := Without(l.cells, 0))
    case PopBack => if l.cells == [] then l else l.(cells := Without(l.cells, |l.cells| - 1))
    case InsertAfter(v, mark) => if mark == NIL then l else Added(l, Index(l.cells, mark) + 1, v)
    case InsertBefore(v, mark) => if mark == NIL then l else Added(l, Index(l.cells, mark), v)
    case MoveToFront(a) =>
      if a == NIL then l
      else var k := Index(l.cells, a); l.(cells := With(Without(l.cells, k), 0, l.cells[k]))
    case MoveToBack(a) =>
      if a == NIL then l
      else var k := Index(l.cells, a); l.(cells := With(Without(l.cells, k), |l.cells| - 1, l.cells[k]))
    case Update(a, v) => if a == NIL then l else l.(cells := l.cells[Index(l.cells, a) := Item(a, v)])
    case Remove(a) => if a == NIL then l else l.(cells := Without(l.cells, Index(l.cells, a)))
    case Reset => l.(cells := [])
  }

  /** The client notes the name of an element when it is handed its address. */
  ghost function Noted<T>(s: Store<T>, op: Op<T>, names: map<nat, nat>, l: PList<T>): map<nat, nat> {
    match op
    case PushFront(_) => names[NextAddr(s) := l.next]
    case PushBack(_) => names[NextAddr(s) := l.next]
    case InsertAfter(_, mark) => if mark == NIL then names else names[NextAddr(s) := l.next]
    case InsertBefore(_, mark) => if mark == NIL then names else names[NextAddr(s) := l.next]
    case _ => names
  }

  /** Position by position the store and the list hold the same values, and the client's
      name for each live address is the identity of the cell it stands for. */
  ghost predicate Same<T>(s: Store<T>, names: map<nat, nat>, l: PList<T>) {
    && |s.items| == |l.cells|
    && Distinct(l.cells)
    && (forall i :: 0 <= i < |s.items| ==>
          && s.items[i].addr in names && names[s.items[i].addr] == l.cells[i].addr
          && s.items[i].value == l.cells[i].value
          && 0 < l.cells[i].addr < l.next)
    && NIL !in names
    && 0 < l.next
  }

  lemma SameIndex<T>(s: Store<T>, names: map<nat, nat>, l: PList<T>, a: nat)
    requires Wf(s) && Same(s, names, l) && Live(s.items, a)
    ensures a in names && names[a] != NIL && Live(l.cells, names[a])
    ensures Index(l.cells, names[a]) == Index(s.items, a)
  {
    var k := Index(s.items, a);
    IndexUnique(l.cells, k);
  }

  lemma SameAdded<T>(s: Store<T>, names: map<nat, nat>, l: PList<T>, k: nat, value: T)
    requires Wf(s) && Same(s, names, l) && k <= |s.items|
    ensures Same(Inserted(s, k, value), names[NextAddr(s) := l.next], Added(l, k, value))
  {
    NextAddrFresh(s);
  }

  lemma SameRemoved<T>(s: Store<T>, names: map<nat, nat>, l: PList<T>, k: nat)
    requires Wf(s) && Same(s, names, l) && k < |s.items|
    ensures Same(Removed(s, k), names, l.(cells := Without(l.cells, k)))
  {
  }

  lemma SameMoved<T>(s: Store<T>, names: map<nat, nat>, l: PList<T>, k: nat, k': nat)
    requires Wf(s) && Same(s, names, l) && k < |s.items| && k' < |s.items|
    ensures Same(s.(items := With(Without(s.items, k), k', s.items[k])), names,
                 l.(cells := With(Without(l.cells, k), k', l.cells[k])))
  {
    var items, cells := With(Without(s.items, k), k', s.items[k]), With(Without(l.cells, k), k', l.cells[k]);
    assert Distinct(Without(l.cells, k));
    assert forall i :: 0 <= i < |l.cells| - 1 ==> Without(l.cells, k)[i].addr != l.cells[k].addr;
    assert Distinct(cells);
  }

  lemma SameUpdated<T>(s: Store<T>, names: map<nat, nat>, l: PList<T>, k: nat, value: T)
    requires Wf(s) && Same(s, names, l) && k < |s.items|
    ensures Same(s.(items := s.items[k := Item(s.items[k].addr, value)]), names,
                 l.(cells := l.cells[k := Item(l.cells[k].addr, value)]))
  {
  }

  lemma InsertionSame<T>(s: Store<T>, names: map<nat, nat>, l: PList<T>, op: Op<T>)
    requires Wf(s) && Same(s, names, l) && Legal(s, op)
    requires op.PushFront? || op.PushBack? || op.InsertAfter? || op.InsertBefore?
    ensures ListLegal(l, Named(op, names))
    ensures Same(Apply(s, op), Noted(s, op, names, l), ListApply(l, Named(op, names)))
  {
    match op
    case PushFront(v) => SameAdded(s, names, l, 0, v);
    case PushBack(v) => SameAdded(s, names, l, |s.items|, v);
    case InsertAfter(v, mark) =>
      if mark != NIL { SameIndex(s, names, l, mark); SameAdded(s, names, l, Index(s.items, mark) + 1, v); }
    case InsertBefore(v, mark) =>
      if mark != NIL { SameIndex(s, names, l, mark); SameAdded(s, names, l, Index(s.items, mark), v); }
  }

  lemma RemovalSame<T>(s: Store<T>, names: map<nat, nat>, l: PList<T>, op: Op<T>)
    requires Wf(s) && Same(s, names, l) && Legal(s, op)
    requires op.PopFront? || op.PopBack? || op.Remove? || op.Reset?
    ensures ListLegal(l, Named(op, names))
    ensures Same(Apply(s, op), Noted(s, op, names, l), ListApply(l, Named(op, names)))
  {
    match op
    case PopFront => if s.items != [] { SameRemoved(s, names, l, 0); }
    case PopBack => if s.items != [] { SameRemoved(s, names, l, |s.items| - 1); }
    case Remove(a) =>
      if a != NIL { SameIndex(s, names, l, a); SameRemoved(s, names, l, Index(s.items, a)); }
    case Reset =>
  }

  lemma ChangeSame<T>(s: Store<T>, names: map<nat, nat>, l: PList<T>, op: Op<T>)
    requires Wf(s) && Same(s, names, l) && Legal(s, op)
    requires op.MoveToFront? || op.MoveToBack? || op.Update?
    ensures ListLegal(l, Named(op, names))
    ensures Same(Apply(s, op), Noted(s, op, names, l), ListApply(l, Named(op, names)))
  {
    if op.addr != NIL {
      SameIndex(s, names, l, op.addr);
      var k := Index(s.items, op.addr);
      match op
      case MoveToFront(a) => SameMoved(s, names, l, k, 0);
      case MoveToBack(a) => SameMoved(s, names, l, k, |s.items| - 1);
      case Update(a, v) => SameUpdated(s, names, l, k, v);
    }
  }

  /** One operation on addresses is the same operation on identities. */
  lemma StepSame<T>(s: Store<T>, names: map<nat, nat>, l: PList<T>, op: Op<T>)
    requires Wf(s) && Same(s, names, l) && Legal(s, op)
    ensures ListLegal(l, Named(op, names))
    ensures Same(Apply(s, op), Noted(s, op, names, l), ListApply(l, Named(op, names)))
  {
    if op.PushFront? || op.PushBack? || op.InsertAfter? || op.InsertBefore? {
      InsertionSame(s, names, l, op);
    } else if op.MoveToFront? || op.MoveToBack? || op.Update? {
      ChangeSame(s, names, l, op);
    } else {
      RemovalSame(s, names, l, op);
    }
  }

  /** The list a run leads to, when the client speaks of elements through its noted names. */
  ghost function ListRun<T>(s: Store<T>, names: map<nat, nat>, l: PList<T>, ops: seq<Op<T>>): (map<nat, nat>, PList<T>)
    requires Wf(s) && Same(s, names, l) && LegalRun(s, ops)
    decreases |ops|
  {
    if ops == [] then (names, l)
    else
      StepSame(s, names, l, ops[0]);
      ApplyWf(s, ops[0]);
      ListRun(Apply(s, ops[0]), Noted(s, ops[0], names, l), ListApply(l, Named(ops[0], names)), ops[1..])
  }

  /** Over any run the deque holds, in order, exactly the values of the linked list. */
  lemma {:induction false} RunRefinesList<T>(s: Store<T>, names: map<nat, nat>, l: PList<T>, ops: seq<Op<T>>)
    requires Wf(s) && Same(s, names, l) && LegalRun(s, ops)
    ensures var (names', l') := ListRun(s, names, l, ops);
      Same(Run(s, ops), names', l') && Values(Run(s, ops).items) == Values(l'.cells)
    decreases |ops|
  {
    if ops != [] {
      StepSame(s, names, l, ops[0]);
      ApplyWf(s, ops[0]);
      RunRefinesList(Apply(s, ops[0]), Noted(s, ops[0], names, l), ListApply(l, Named(ops[0], names)), ops[1..]);
    }
  }

  ghost predicate StaysLive<T>(s: Store<T>, ops: seq<Op<T>>, a: nat)
    requires LegalRun(s, ops)
    decreases |ops|
  {
    Live(s.items, a) && (ops == [] || StaysLive(Apply(s, ops[0]), ops[1..], a))
  }

  /** While an element lives, its address is never handed out again: the name noted for it
      stays the identity of the same cell, whatever else is inserted, moved or removed. */
  lemma {:induction false} AddressStable<T>(s: Store<T>, names: map<nat, nat>, l: PList<T>, ops: seq<Op<T>>, a: nat)
    requires Wf(s) && Same(s, names, l) && LegalRun(s, ops) && StaysLive(s, ops, a)
    ensures var (names', l') := ListRun(s, names, l, ops);
      && a in names && a in names' && names'[a] == names[a]
      && Live(Run(s, ops).items, a) && Live(l'.cells, names[a])
      && Index(Run(s, ops).items, a) == Index(l'.cells, names[a])
    decreases |ops|
  {
    NextAddrFresh(s);
    SameIndex(s, names, l, a);
    if ops != [] {
      StepSame(s, names, l, ops[0]);
      ApplyWf(s, ops[0]);
      AddressStable(Apply(s, ops[0]), Noted(s, ops[0], names, l), ListApply(l, Named(ops[0], names)), ops[1..], a);
    }
  }

  // ---------------------------------------------------------------- as a queue

  function PushedBack<T>(ops: seq<Op<T>>): seq<T> {
    if ops == [] then []
    else (if ops[0].PushBack? then [ops[0].value] else []) + PushedBack(ops[1..])
  }

  /** The values PopFront returns along a run; on an empty deque it returns none. */
  ghost function PoppedFront<T>(s: Store<T>, ops: seq<Op<T>>): seq<T>
    requires LegalRun(s, ops)
    decreases |ops|
  {
    if ops == [] then []
    else
      (if ops[0].PopFront? && s.items != [] then [s.items[0].value] else [])
      + PoppedFront(Apply(s, ops[0]), ops[1..])
  }

  lemma Regroup<T>(x: T, popped: seq<T>, held: seq<T>, before: seq<T>, pushed: seq<T>)
    ensures popped + held == (before + [x]) + pushed ==> popped + held == before + ([x] + pushed)
    ensures popped + held == before + pushed ==> ([x] + popped) + held == ([x] + before) + pushed
  {
    assert (before + [x]) + pushed == before + ([x] + pushed);
    assert ([x] + popped) + held == [x] + (popped + held);
    assert ([x] + before) + pushed == [x] + (before + pushed);
  }

  /** Used through PushBack and PopFront only, the deque is a FIFO queue. */
  lemma {:induction false} RunIsFifo<T>(s: Store<T>, ops: seq<Op<T>>)
    requires LegalRun(s, ops) && forall i :: 0 <= i < |ops| ==> ops[i].PushBack? || ops[i].PopFront?
    ensures PoppedFront(s, ops) + Values(Run(s, ops).items) == Values(s.items) + PushedBack(ops)
    decreases |ops|
  {
    if ops != [] {
      var s' := Apply(s, ops[0]);
      RunIsFifo(s', ops[1..]);
      var popped, held, pushed := PoppedFront(s', ops[1..]), Values(Run(s', ops[1..]).items), PushedBack(ops[1..]);
      if ops[0].PushBack? {
        assert Values(s'.items) == Values(s.items) + [ops[0].value];
        Regroup(ops[0].value, popped, held, Values(s.items), pushed);
      } else if s.items != [] {
        assert Values(s.items) == [s.items[0].value] + Values(s'.items);
        Regroup(s.items[0].value, popped, held, Values(s'.items), pushed);
      }
    }
  }
}
