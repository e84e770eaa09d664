/** What the slice-backed deque of internal/deque.go promises its clients, on plain values:
    a sequence of (address, value) items, the LIFO stack of free slots and the number of
    slots. `Deques.Deque` is proved to compute exactly `Apply`; this module proves what
    whole runs of `Apply` guarantee. */
module DequeModel {

  const NIL: nat := 0

  /** Addresses are uint32 values, so there are at most 2^32 slots (slot 0 is the nil slot). */
  const MAX_SLOTS: nat := 0x1_0000_0000

  datatype Item<T> = Item(addr: nat, value: T)

  datatype Store<T> = Store(items: seq<Item<T>>, free: seq<nat>, slots: nat)

  datatype Op<T> =
    | PushFront(value: T)
    | PushBack(value: T)
    | PopFront
    | PopBack
    | InsertAfter(value: T, mark: nat)
    | InsertBefore(value: T, mark: nat)
    | MoveToFront(addr: nat)
    | MoveToBack(addr: nat)
    | Update(addr: nat, value: T)
    | Remove(addr: nat)
    | Reset

  // ---------------------------------------------------------------- sequences of items

  ghost predicate Live<T>(items: seq<Item<T>>, a: nat) {
    exists i :: 0 <= i < |items| && items[i].addr == a
  }

  ghost predicate Distinct<T>(items: seq<Item<T>>) {
    forall i, j :: 0 <= i < j < |items| ==> items[i].addr != items[j].addr
  }

  /** The position of the item at address a. */
  function Index<T>(items: seq<Item<T>>, a: nat): (k: nat)
    requires Live(items, a)
    ensures k < |items| && items[k].addr == a
  {
    if items[0].addr == a then 0 else
      assert Live(items[1..], a) by {
        var i :| 0 <= i < |items| && items[i].addr == a;
        assert items[1..][i - 1].addr == a;
      }
      1 + Index(items[1..], a)
  }

  lemma IndexUnique<T>(items: seq<Item<T>>, k: nat)
    requires k < |items| && Distinct(items)
    ensures Live(items, items[k].addr) && Index(items, items[k].addr) == k
  {
  }

  function Without<S>(s: seq<S>, k: nat): seq<S>
    requires k < |s|
  {
    seq(|s| - 1, i requires 0 <= i < |s| - 1 => if i < k then s[i] else s[i + 1])
  }

  function With<S>(s: seq<S>, k: nat, x: S): seq<S>
    requires k <= |s|
  {
    seq(|s| + 1, i requires 0 <= i <= |s| => if i < k then s[i] else if i == k then x else s[i - 1])
  }

  function Values<T>(items: seq<Item<T>>): seq<T> {
    seq(|items|, i requires 0 <= i < |items| => items[i].value)
  }

  /** The items Range visits: up to and including the first one on which f says stop. */
  function UpToFirstFalse<T>(items: seq<Item<T>>, f: Item<T> -> bool): seq<Item<T>> {
    if items == [] then []
    else [items[0]] + if f(items[0]) then UpToFirstFalse(items[1..], f) else []
  }

  /** What Range visits: a prefix, f true on all of it but its last, and false on that one unless
      everything is visited. */
  lemma {:induction false} UpToFirstFalseMeans<T>(items: seq<Item<T>>, f: Item<T> -> bool)
    ensures var v := UpToFirstFalse(items, f);
      && v <= items
      && (forall i :: 0 <= i < |v| - 1 ==> f(v[i]))
      && (|v| < |items| ==> v != [] && !f(v[|v| - 1]))
    decreases |items|
  {
    if items != [] && f(items[0]) {
      UpToFirstFalseMeans(items[1..], f);
    }
  }

  lemma UpToFirstFalseStep<T>(items: seq<Item<T>>, k: nat, f: Item<T> -> bool)
    requires k < |items|
    ensures items[..k] + [items[k]] == items[..k + 1]
    ensures items[..k] + UpToFirstFalse(items[k..], f)
         == items[..k + 1] + if f(items[k]) then UpToFirstFalse(items[k + 1..], f) else []
  {
    CutAt(items, k);
    var tail := if f(items[k]) then UpToFirstFalse(items[k + 1..], f) else [];
    assert UpToFirstFalse(items[k..], f) == [items[k]] + tail;
    hide UpToFirstFalse;
    Joined(items[..k], [items[k]], tail);
  }

  lemma CutAt<S>(s: seq<S>, k: nat)
    requires k < |s|
    ensures s[k..] != [] && s[k..][0] == s[k] && s[k..][1..] == s[k + 1..] && s[..k] + [s[k]] == s[..k + 1]
  {
  }

  lemma Joined<S>(a: seq<S>, b: seq<S>, c: seq<S>)
    ensures a + (b + c) == (a + b) + c
  {
  }

  // ---------------------------------------------------------------- one operation

  /** The slot the next insertion uses: the top of the free stack, else a new one. */
  function NextSlot(free: seq<nat>, slots: nat): nat {
    if free != [] then free[|free| - 1] else if slots == 0 then 1 else slots
  }

  function NextAddr<T>(s: Store<T>): nat {
    NextSlot(s.free, s.slots)
  }

  function Popped(stack: seq<nat>): seq<nat> {
    if stack == [] then [] else stack[..|stack| - 1]
  }

  predicate CanAllocate<T>(s: Store<T>) {
    s.free != [] || s.slots < MAX_SLOTS
  }

  function Inserted<T>(s: Store<T>, k: nat, value: T): Store<T>
    requires k <= |s.items|
  {
    Store(With(s.items, k, Item(NextAddr(s), value)), Popped(s.free),
          if s.free != [] then s.slots else NextAddr(s) + 1)
  }

  /** Removing the last item resets the whole store to the nil slot. */
  function Removed<T>(s: Store<T>, k: nat): Store<T>
    requires k < |s.items|
  {
    if |s.items| == 1 then Store([], [], 1)
    else Store(Without(s.items, k), s.free + [s.items[k].addr], s.slots)
  }

  /** What callers owe: addresses are nil or live, the slot count fits, and Reset needs
      the nil slot to exist. */
  ghost predicate Legal<T>(s: Store<T>, op: Op<T>) {
    match op
    case PushFront(_) => CanAllocate(s)
    case PushBack(_) => CanAllocate(s)
    case PopFront => true
    case PopBack => true
    case InsertAfter(_, mark) => mark == NIL || (Live(s.items, mark) && CanAllocate(s))
    case InsertBefore(_, mark) => mark == NIL || (Live(s.items, mark) && CanAllocate(s))
    case MoveToFront(a) => a == NIL || Live(s.items, a)
    case MoveToBack(a) => a == NIL || Live(s.items, a)
    case Update(a, _) => a == NIL || Live(s.items, a)
    case Remove(a) => a == NIL || Live(s.items, a)
    case Reset => s.slots > 0
  }

  ghost function Apply<T>(s: Store<T>, op: Op<T>): Store<T>
    requires Legal(s, op)
  {
    match op
    case PushFront(v) => Inserted(s, 0, v)
    case PushBack(v) => Inserted(s, |s.items|, v)
    case PopFront => if s.items == [] then s else Removed(s, 0)
    case PopBack => if s.items == [] then s else Removed(s, |s.items| - 1)
    case InsertAfter(v, mark) => if mark == NIL then s else Inserted(s, Index(s.items, mark) + 1, v)
    case InsertBefore(v, mark) => if mark == NIL then s else Inserted(s, Index(s.items, mark), v)
    case MoveToFront(a) =>
      if a == NIL then s
      else var k := Index(s.items, a); s.(items := With(Without(s.items, k), 0, s.items[k]))
    case MoveToBack(a) =>
      if a == NIL then s
      else var k := Index(s.items, a); s.(items := With(Without(s.items, k), |s.items| - 1, s.items[k]))
    case Update(a, v) =>
      if a == NIL then s
      else s.(items := s.items[Index(s.items, a) := Item(a, v)])
    case Remove(a) => if a == NIL then s else Removed(s, Index(s.items, a))
    case Reset => Store([], [], 1)
  }

  lemma WithIs<S>(s: seq<S>, k: nat, x: S)
    requires k <= |s|
    ensures With(s, k, x) == s[..k] + [x] + s[k..]
  {
  }

  lemma WithoutIs<S>(s: seq<S>, k: nat)
    requires k < |s|
    ensures Without(s, k) == s[..k] + s[k + 1..]
  {
  }

  /** What each operation does to the list, k being the position of the address it is given. */
  lemma ApplyMeans<T>(s: Store<T>, op: Op<T>, k: nat)
    requires Legal(s, op) && Distinct(s.items)
    requires match op
             case InsertAfter(_, a) => a != NIL && k < |s.items| && s.items[k].addr == a
             case InsertBefore(_, a) => a != NIL && k < |s.items| && s.items[k].addr == a
             case MoveToFront(a) => a != NIL && k < |s.items| && s.items[k].addr == a
             case MoveToBack(a) => a != NIL && k < |s.items| && s.items[k].addr == a
             case Update(a, _) => a != NIL && k < |s.items| && s.items[k].addr == a
             case Remove(a) => a != NIL && k < |s.items| && s.items[k].addr == a
             case _ => true
    ensures var now, slot := Apply(s, op).items, NextAddr(s); var n := |s.items|;
      match op
      case PushFront(v) => now == [Item(slot, v)] + s.items
      case PushBack(v) => now == s.items + [Item(slot, v)]
      case PopFront => now == if n == 0 then [] else s.items[1..]
      case PopBack => now == if n == 0 then [] else s.items[..n - 1]
      case InsertAfter(v, _) => now == s.items[..k + 1] + [Item(slot, v)] + s.items[k + 1..]
      case InsertBefore(v, _) => now == s.items[..k] + [Item(slot, v)] + s.items[k..]
      case MoveToFront(_) => now == [s.items[k]] + s.items[..k] + s.items[k + 1..]
      case MoveToBack(_) => now == s.items[..k] + s.items[k + 1..] + [s.items[k]]
      case Update(a, v) => now == s.items[..k] + [Item(a, v)] + s.items[k + 1..]
      case Remove(_) => now == s.items[..k] + s.items[k + 1..]
      case Reset => now == []
  {
    var n := |s.items|;
    if k < n { IndexUnique(s.items, k); }
    hide With, Without, Distinct, Inserted, Removed;
    match op
    case PushFront(v) => InsertedIs(s, 0, v);
    case PushBack(v) => InsertedIs(s, n, v);
    case PopFront => if n > 0 { RemovedIs(s, 0); }
    case PopBack => if n > 0 { RemovedIs(s, n - 1); }
    case InsertAfter(v, _) => InsertedIs(s, k + 1, v);
    case InsertBefore(v, _) => InsertedIs(s, k, v);
    case MoveToFront(_) => MovedIs(s.items, k);
    case MoveToBack(_) => MovedIs(s.items, k);
    case Update(a, v) => UpdatedIs(s.items, k, Item(a, v));
    case Remove(_) => RemovedIs(s, k);
    case Reset =>
  }

  lemma InsertedIs<T>(s: Store<T>, k: nat, value: T)
    requires k <= |s.items|
    ensures Inserted(s, k, value).items == s.items[..k] + [Item(NextAddr(s), value)] + s.items[k..]
    ensures k == 0 ==> Inserted(s, k, value).items == [Item(NextAddr(s), value)] + s.items
    ensures k == |s.items| ==> Inserted(s, k, value).items == s.items + [Item(NextAddr(s), value)]
  {
    WithIs(s.items, k, Item(NextAddr(s), value));
    hide With;
  }

  lemma RemovedIs<T>(s: Store<T>, k: nat)
    requires k < |s.items|
    ensures Removed(s, k).items == s.items[..k] + s.items[k + 1..]
    ensures k == 0 ==> Removed(s, k).items == s.items[1..]
    ensures k == |s.items| - 1 ==> Removed(s, k).items == s.items[..k]
  {
    WithoutIs(s.items, k);
    hide Without;
  }

  lemma MovedIs<T>(items: seq<Item<T>>, k: nat)
    requires k < |items|
    ensures |Without(items, k)| == |items| - 1
    ensures With(Without(items, k), 0, items[k]) == [items[k]] + items[..k] + items[k + 1..]
    ensures With(Without(items, k), |items| - 1, items[k]) == items[..k] + items[k + 1..] + [items[k]]
  {
    WithoutIs(items, k);
    hide With, Without;
    var rest := Without(items, k);
    WithIs(rest, 0, items[k]);
    WithIs(rest, |rest|, items[k]);
    assert rest[..0] == [] && rest[0..] == rest && rest[..|rest|] == rest && rest[|rest|..] == [];
  }

  lemma UpdatedIs<S>(s: seq<S>, k: nat, x: S)
    requires k < |s|
    ensures s[k := x] == s[..k] + [x] + s[k + 1..]
  {
  }

  // ---------------------------------------------------------------- the slot invariant

  ghost predicate Wf<T>(s: Store<T>) {
    && s.slots <= MAX_SLOTS
    && Distinct(s.items)
    && (forall i :: 0 <= i < |s.items| ==> 0 < s.items[i].addr < s.slots)
    && (forall j :: 0 <= j < |s.free| ==> 0 < s.free[j] < s.slots)
    && (forall i, j :: 0 <= i < j < |s.free| ==> s.free[i] != s.free[j])
    && (forall i, j :: 0 <= i < |s.items| && 0 <= j < |s.free| ==> s.items[i].addr != s.free[j])
    && (s.slots > 0 ==> |s.items| + |s.free| + 1 == s.slots)
    && (s.items == [] ==> s.free == [] && s.slots <= 1)
  }

  lemma NextAddrFresh<T>(s: Store<T>)
    requires Wf(s)
    ensures !Live(s.items, NextAddr(s)) && NextAddr(s) != NIL
    ensures s.slots == 0 ==> s.items == []
  {
    assert s.items != [] ==> 0 < s.items[0].addr < s.slots;
  }

  /** A freed slot is the next to be used; a slot is added only when none is free. */
  lemma LastFreedIsReused<T>(s: Store<T>, k: nat, value: T)
    requires Wf(s) && k < |s.items| && |s.items| > 1
    ensures var r := Removed(s, k);
      && NextAddr(r) == s.items[k].addr && CanAllocate(r)
      && Inserted(r, 0, value).free == s.free && Inserted(r, 0, value).slots == s.slots
    ensures s.free == [] ==> NextAddr(s) == s.slots
  {
  }

  lemma InsertedWf<T>(s: Store<T>, k: nat, value: T)
    requires Wf(s) && CanAllocate(s) && k <= |s.items|
    ensures Wf(Inserted(s, k, value))
  {
    NextAddrFresh(s);
    var r := Inserted(s, k, value);
    assert r.free <= s.free;
    assert Distinct(r.items);
    assert forall i, j :: 0 <= i < |r.items| && 0 <= j < |r.free| ==> r.items[i].addr != r.free[j];
  }

  lemma WithoutWf<T>(s: Store<T>, k: nat)
    requires Wf(s) && k < |s.items|
    ensures var rest := Without(s.items, k);
      && |rest| == |s.items| - 1 && Distinct(rest)
      && (forall i :: 0 <= i < |rest| ==> 0 < rest[i].addr < s.slots && rest[i].addr != s.items[k].addr)
      && (forall i, j :: 0 <= i < |rest| && 0 <= j < |s.free| ==> rest[i].addr != s.free[j])
  {
  }

  lemma RemovedWf<T>(s: Store<T>, k: nat)
    requires Wf(s) && k < |s.items|
    ensures Wf(Removed(s, k))
  {
    WithoutWf(s, k);
    hide Without, Distinct;
  }

  lemma MovedWf<T>(s: Store<T>, k: nat)
    requires Wf(s) && k < |s.items|
    ensures Wf(s.(items := With(Without(s.items, k), 0, s.items[k])))
    ensures Wf(s.(items := With(Without(s.items, k), |s.items| - 1, s.items[k])))
  {
    var rest := Without(s.items, k);
    WithoutWf(s, k);
    ArrangedWf(s, With(rest, 0, s.items[k]));
    ArrangedWf(s, With(rest, |rest|, s.items[k]));
  }

  lemma ArrangedWf<T>(s: Store<T>, items: seq<Item<T>>)
    requires Wf(s) && |items| == |s.items| && Distinct(items)
    requires forall i :: 0 <= i < |items| ==> 0 < items[i].addr < s.slots
    requires forall i, j :: 0 <= i < |items| && 0 <= j < |s.free| ==> items[i].addr != s.free[j]
    ensures Wf(s.(items := items))
  {
  }

  lemma UpdatedWf<T>(s: Store<T>, k: nat, value: T)
    requires Wf(s) && k < |s.items|
    ensures Wf(s.(items := s.items[k := Item(s.items[k].addr, value)]))
  {
  }

  /** Every legal operation keeps the slot invariant. */
  lemma ApplyWf<T>(s: Store<T>, op: Op<T>)
    requires Wf(s) && Legal(s, op)
    ensures Wf(Apply(s, op))
  {
    hide Distinct, With, Without;
    match op
    case PushFront(v) => InsertedWf(s, 0, v);
    case PushBack(v) => InsertedWf(s, |s.items|, v);
    case InsertAfter(v, mark) => if mark != NIL { InsertedWf(s, Index(s.items, mark) + 1, v); }
    case InsertBefore(v, mark) => if mark != NIL { InsertedWf(s, Index(s.items, mark), v); }
    case PopFront => if s.items != [] { RemovedWf(s, 0); }
    case PopBack => if s.items != [] { RemovedWf(s, |s.items| - 1); }
    case Remove(a) => if a != NIL { RemovedWf(s, Index(s.items, a)); }
    case MoveToFront(a) =>
      if a != NIL {
        MovedWf(s, Index(s.items, a));
      }
    case MoveToBack(a) =>
      if a != NIL {
        MovedWf(s, Index(s.items, a));
      }
    case Update(a, v) => if a != NIL { UpdatedWf(s, Index(s.items, a), v); }
    case Reset => EmptyWf<T>();
  }

  lemma EmptyWf<T>()
    ensures Wf<T>(Store([], [], 1))
  {
  }
}
