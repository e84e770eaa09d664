/** internal/deque.go: a doubly linked list kept inside a growable slice. Links are
    integer addresses, address 0 is nil, and freed slots are reused through a stack. */
module Deques {
  import opened DequeModel

  datatype Element<T> = Element(value: T, prev: nat, addr: nat, next: nat)

  ghost function First(order: seq<nat>): nat { if order == [] then NIL else order[0] }

  ghost function Last(order: seq<nat>): nat { if order == [] then NIL else order[|order| - 1] }

  /** `order` lists the addresses met by following next from head; read backwards it is
      the list met by following prev from tail. */
  ghost predicate Linked<T>(es: seq<Element<T>>, order: seq<nat>, head: nat, tail: nat) {
    && head == First(order)
    && tail == Last(order)
    && (forall i :: 0 <= i < |order| ==> 0 < order[i] < |es|)
    && (forall i {:trigger es[order[i]]} :: 0 <= i < |order| ==> Placed(es[order[i]], order, i))
  }

  ghost function ItemsOf<T>(es: seq<Element<T>>, order: seq<nat>): seq<Item<T>>
    requires forall i :: 0 <= i < |order| ==> order[i] < |es|
  {
    seq(|order|, i requires 0 <= i < |order| => Item(order[i], es[order[i]].value))
  }

  /** The slice after doRemove has bridged over the element at a. */
  function Unlinked<T>(es: seq<Element<T>>, a: nat): seq<Element<T>>
    requires a < |es| && es[a].prev < |es| && es[a].next < |es|
  {
    var p, n := es[a].prev, es[a].next;
    var es' := if p == NIL then es else es[p := es[p].(next := n)];
    if n == NIL then es' else es'[n := es'[n].(prev := p)]
  }

  ghost predicate Unique(order: seq<nat>) {
    forall i, j :: 0 <= i < j < |order| ==> order[i] != order[j]
  }

  lemma WithoutAt<S>(s: seq<S>, k: nat, i: nat)
    requires k < |s| && i < |s| - 1
    ensures Without(s, k)[i] == s[if i < k then i else i + 1]
  {
  }

  lemma WithAt<S>(s: seq<S>, k: nat, x: S, i: nat)
    requires k <= |s| && i <= |s|
    ensures With(s, k, x)[i] == if i < k then s[i] else if i == k then x else s[i - 1]
  {
  }

  /** The links the element at position i of a chain must carry. */
  ghost predicate Placed<T>(e: Element<T>, order: seq<nat>, i: nat)
    requires i < |order|
  {
    && e.addr == order[i]
    && e.prev == (if i == 0 then NIL else order[i - 1])
    && e.next == (if i == |order| - 1 then NIL else order[i + 1])
  }

  /** A chain visits no address twice: two visits would share their predecessors, back to
      the head, which has none. This is what makes every walk along next stop. */
  lemma {:induction false} ChainVisitsOnce<T>(es: seq<Element<T>>, order: seq<nat>, i: nat, j: nat)
    requires Linked(es, order, First(order), Last(order)) && i < j < |order|
    ensures order[i] != order[j]
  {
    assert Placed(es[order[i]], order, i) && Placed(es[order[j]], order, j);
    if i > 0 {
      ChainVisitsOnce(es, order, i - 1, j - 1);
    }
  }

  lemma ChainUnique<T>(es: seq<Element<T>>, order: seq<nat>)
    requires Linked(es, order, First(order), Last(order))
    ensures Unique(order)
  {
    forall i, j | 0 <= i < j < |order|
      ensures order[i] != order[j]
    {
      ChainVisitsOnce(es, order, i, j);
    }
  }

  lemma UnlinkedLeaves<T>(es: seq<Element<T>>, order: seq<nat>, k: nat)
    requires Linked(es, order, First(order), Last(order)) && k < |order|
    ensures order[k] !in Without(order, k)
    ensures es[order[k]].prev < |es| && es[order[k]].next < |es|
    ensures |Unlinked(es, order[k])| == |es| && Unlinked(es, order[k])[order[k]] == es[order[k]]
  {
    ChainUnique(es, order);
    assert Placed(es[order[k]], order, k);
  }

  lemma UnlinkedAt<T>(es: seq<Element<T>>, order: seq<nat>, k: nat, o: nat)
    requires Linked(es, order, First(order), Last(order)) && k < |order| && o < |order| && o != k
    requires es[order[k]].prev < |es| && es[order[k]].next < |es|
    ensures Unlinked(es, order[k])[order[o]]
         == es[order[o]].(prev := if o == k + 1 then es[order[k]].prev else es[order[o]].prev,
                          next := if o == k - 1 then es[order[k]].next else es[order[o]].next)
  {
    ChainUnique(es, order);
    assert Placed(es[order[k]], order, k);
  }

  lemma LinkedUnlinked<T>(es: seq<Element<T>>, order: seq<nat>, k: nat)
    requires Linked(es, order, First(order), Last(order)) && k < |order|
    ensures Placed(es[order[k]], order, k)
    ensures var a := order[k];
      && es[a].prev < |es| && es[a].next < |es|
      && Linked(Unlinked(es, a), Without(order, k), First(Without(order, k)), Last(Without(order, k)))
  {
    var a, rest := order[k], Without(order, k);
    assert Placed(es[a], order, k);
    var es' := Unlinked(es, a);
    forall i | 0 <= i < |rest|
      ensures 0 < rest[i] < |es'| && Placed(es'[rest[i]], rest, i)
    {
      var o := if i < k then i else i + 1;
      WithoutAt(order, k, i);
      assert Placed(es[order[o]], order, o);
      if i > 0 { WithoutAt(order, k, i - 1); }
      if i + 1 < |rest| { WithoutAt(order, k, i + 1); }
      UnlinkedAt(es, order, k, o);
    }
  }

  lemma ItemsUnlinked<T>(es: seq<Element<T>>, order: seq<nat>, k: nat)
    requires k < |order| && forall i :: 0 <= i < |order| ==> order[i] < |es|
    requires es[order[k]].prev < |es| && es[order[k]].next < |es|
    ensures forall i :: 0 <= i < |Without(order, k)| ==> Without(order, k)[i] < |es|
    ensures ItemsOf(Unlinked(es, order[k]), Without(order, k)) == Without(ItemsOf(es, order), k)
  {
    var rest, es' := Without(order, k), Unlinked(es, order[k]);
    assert forall b :: 0 <= b < |es| ==> es'[b].value == es[b].value;
    forall i | 0 <= i < |rest|
      ensures rest[i] < |es|
      ensures es'[rest[i]].value == es[rest[i]].value
      ensures Item(rest[i], es'[rest[i]].value) == Without(ItemsOf(es, order), k)[i]
    {
      WithoutAt(order, k, i);
      WithoutAt(ItemsOf(es, order), k, i);
    }
  }

  /** es' extends the chain of es with a new element at a, between positions k - 1 and k. */
  ghost predicate Spliced<T>(es: seq<Element<T>>, es': seq<Element<T>>, order: seq<nat>, k: nat, a: nat, value: T)
    requires k <= |order|
  {
    && |es| <= |es'|
    && (forall i :: 0 <= i < |order| ==> order[i] < |es|)
    && 0 < a < |es'|
    && a !in order
    && es'[a] == Element(value, if k == 0 then NIL else order[k - 1], a, if k == |order| then NIL else order[k])
    && (forall i {:trigger es'[order[i]]} :: 0 <= i < |order| ==>
          es'[order[i]] == es[order[i]].(prev := if i == k then a else es[order[i]].prev,
                                         next := if i == k - 1 then a else es[order[i]].next))
  }

  lemma LinkedSpliced<T>(es: seq<Element<T>>, es': seq<Element<T>>, order: seq<nat>, k: nat, a: nat, value: T)
    requires k <= |order| && Linked(es, order, First(order), Last(order)) && Spliced(es, es', order, k, a, value)
    ensures Linked(es', With(order, k, a), First(With(order, k, a)), Last(With(order, k, a)))
  {
    var all := With(order, k, a);
    forall i | 0 <= i < |all|
      ensures 0 < all[i] < |es'| && Placed(es'[all[i]], all, i)
    {
      WithAt(order, k, a, i);
      if i > 0 { WithAt(order, k, a, i - 1); }
      if i < |order| { WithAt(order, k, a, i + 1); }
      if i < k { assert Placed(es[order[i]], order, i); }
      if i > k { assert Placed(es[order[i - 1]], order, i - 1); }
    }
  }

  lemma ItemsSpliced<T>(es: seq<Element<T>>, es': seq<Element<T>>, order: seq<nat>, k: nat, a: nat, value: T)
    requires k <= |order| && Spliced(es, es', order, k, a, value)
    ensures forall i :: 0 <= i < |With(order, k, a)| ==> With(order, k, a)[i] < |es'|
    ensures ItemsOf(es', With(order, k, a)) == With(ItemsOf(es, order), k, Item(a, value))
  {
    var all := With(order, k, a);
    forall i | 0 <= i < |all|
      ensures all[i] < |es'|
      ensures Item(all[i], es'[all[i]].value) == With(ItemsOf(es, order), k, Item(a, value))[i]
    {
      WithAt(order, k, a, i);
      WithAt(ItemsOf(es, order), k, Item(a, value), i);
    }
  }

  /** Free slots have been reset to the template. */
  ghost predicate Blank<T>(es: seq<Element<T>>, stack: seq<nat>, template: Element<T>) {
    forall j :: 0 <= j < |stack| ==> 0 < stack[j] < |es| && es[stack[j]] == template
  }

  /** Changing slots outside the chain changes neither the chain nor its items. */
  lemma ChainFrame<T>(es: seq<Element<T>>, es': seq<Element<T>>, order: seq<nat>)
    requires Linked(es, order, First(order), Last(order)) && |es| <= |es'|
    requires forall i :: 0 <= i < |order| ==> es'[order[i]] == es[order[i]]
    ensures Linked(es', order, First(order), Last(order))
    ensures ItemsOf(es', order) == ItemsOf(es, order)
  {
  }

  ghost predicate Threaded<T>(es: seq<Element<T>>, order: seq<nat>, stack: seq<nat>, template: Element<T>) {
    && template.prev == NIL && template.addr == NIL && template.next == NIL
    && Linked(es, order, First(order), Last(order))
    && Blank(es, stack, template)
  }

  /** Slot a holds a value but is neither in the chain nor free. */
  ghost predicate Loose<T>(es: seq<Element<T>>, order: seq<nat>, a: nat) {
    0 < a < |es| && a !in order && es[a].addr == a && es[a].prev == NIL && es[a].next == NIL
  }

  function FrontLinked<T>(es: seq<Element<T>>, head: nat, a: nat): seq<Element<T>>
    requires head < |es| && a < |es|
  {
    if head == NIL then es else
      var es' := es[head := es[head].(prev := a)];
      es'[a := es'[a].(next := es'[head].addr)]
  }

  lemma SpliceKeepsBlank<T>(
    es: seq<Element<T>>, es': seq<Element<T>>, order: seq<nat>, stack: seq<nat>, template: Element<T>, a: nat)
    requires Threaded(es, order, stack, template) && 0 < a < |es| && es[a].addr == a && |es'| == |es|
    requires forall b :: 0 < b < |es| && b !in order && b != a ==> es'[b] == es[b]
    ensures Blank(es', stack, template)
  {
    forall j | 0 <= j < |stack|
      ensures es'[stack[j]] == template
    {
      forall i | 0 <= i < |order|
        ensures order[i] != stack[j]
      {
        assert Placed(es[order[i]], order, i);
      }
    }
  }

  /** What either push writes: a is spliced in at position k, and nothing outside the chain changes. */
  ghost predicate SplicedOnly<T>(es: seq<Element<T>>, es': seq<Element<T>>, order: seq<nat>, k: nat, a: nat, value: T)
    requires k <= |order|
  {
    && |es'| == |es| && Spliced(es, es', order, k, a, value)
    && forall b :: 0 < b < |es| && b !in order && b != a ==> es'[b] == es[b]
  }

  lemma SplicedThreaded<T>(
    es: seq<Element<T>>, es': seq<Element<T>>, order: seq<nat>, stack: seq<nat>, template: Element<T>,
    k: nat, a: nat, value: T)
    requires Threaded(es, order, stack, template) && Loose(es, order, a)
    requires k <= |order| && SplicedOnly(es, es', order, k, a, value)
    ensures var all := With(order, k, a);
      && Threaded(es', all, stack, template)
      && ItemsOf(es', all) == With(ItemsOf(es, order), k, Item(a, value))
  {
    LinkedSpliced(es, es', order, k, a, value);
    ItemsSpliced(es, es', order, k, a, value);
    SpliceKeepsBlank(es, es', order, stack, template, a);
    hide With, Spliced, Linked, Blank;
  }

  lemma FrontSpliced<T>(es: seq<Element<T>>, order: seq<nat>, a: nat)
    requires Linked(es, order, First(order), Last(order)) && Loose(es, order, a)
    ensures First(order) < |es| && SplicedOnly(es, FrontLinked(es, First(order), a), order, 0, a, es[a].value)
  {
    ChainUnique(es, order);
    assert order != [] ==> Placed(es[order[0]], order, 0);
  }

  lemma FrontLinkedThreaded<T>(es: seq<Element<T>>, order: seq<nat>, stack: seq<nat>, template: Element<T>, a: nat)
    requires Threaded(es, order, stack, template) && Loose(es, order, a)
    ensures First(order) < |es|
    ensures var es' := FrontLinked(es, First(order), a); var all := With(order, 0, a);
      && Threaded(es', all, stack, template)
      && ItemsOf(es', all) == With(ItemsOf(es, order), 0, Item(a, es[a].value))
      && |es'| == |es|
  {
    FrontSpliced(es, order, a);
    hide Linked, Loose, Blank, Spliced, FrontLinked;
    SplicedThreaded(es, FrontLinked(es, First(order), a), order, stack, template, 0, a, es[a].value);
  }

  function BackLinked<T>(es: seq<Element<T>>, tail: nat, a: nat): seq<Element<T>>
    requires tail < |es| && a < |es|
  {
    if tail == NIL then es else
      var es' := es[tail := es[tail].(next := a)];
      es'[a := es'[a].(prev := es'[tail].addr)]
  }

  lemma BackSpliced<T>(es: seq<Element<T>>, order: seq<nat>, a: nat)
    requires Linked(es, order, First(order), Last(order)) && Loose(es, order, a)
    ensures Last(order) < |es| && SplicedOnly(es, BackLinked(es, Last(order), a), order, |order|, a, es[a].value)
  {
    ChainUnique(es, order);
    assert order != [] ==> Placed(es[order[|order| - 1]], order, |order| - 1);
  }

  lemma BackLinkedThreaded<T>(es: seq<Element<T>>, order: seq<nat>, stack: seq<nat>, template: Element<T>, a: nat)
    requires Threaded(es, order, stack, template) && Loose(es, order, a)
    ensures Last(order) < |es|
    ensures var es' := BackLinked(es, Last(order), a); var all := With(order, |order|, a);
      && Threaded(es', all, stack, template)
      && ItemsOf(es', all) == With(ItemsOf(es, order), |order|, Item(a, es[a].value))
      && |es'| == |es|
  {
    BackSpliced(es, order, a);
    hide Linked, Loose, Blank, Spliced, BackLinked;
    SplicedThreaded(es, BackLinked(es, Last(order), a), order, stack, template, |order|, a, es[a].value);
  }

  /** InsertAfter's and InsertBefore's writes: a goes between the neighbours p and n. */
  function BetweenLinked<T>(es: seq<Element<T>>, p: nat, a: nat, n: nat, value: T): seq<Element<T>>
    requires p < |es| && a < |es| && n < |es|
  {
    var es' := es[a := es[a].(prev := p, next := n, value := value)];
    var es'' := if n == NIL then es' else es'[n := es'[n].(prev := a)];
    if p == NIL then es'' else es''[p := es''[p].(next := a)]
  }

  ghost function Neighbour(order: seq<nat>, i: int): nat {
    if 0 <= i < |order| then order[i] else NIL
  }

  /** Writing to neighbours only leaves every slot outside the chain alone. */
  lemma OutsideKept<T>(es: seq<Element<T>>, es': seq<Element<T>>, order: seq<nat>, p: nat, n: nat, a: nat)
    requires |es'| == |es|
    requires p == NIL || p in order
    requires n == NIL || n in order
    requires forall b :: 0 < b < |es| && b != p && b != n && b != a ==> es'[b] == es[b]
    ensures forall b :: 0 < b < |es| && b !in order && b != a ==> es'[b] == es[b]
  {
  }

  lemma BetweenSpliced<T>(es: seq<Element<T>>, order: seq<nat>, k: nat, a: nat, value: T)
    requires Linked(es, order, First(order), Last(order)) && Loose(es, order, a) && k <= |order|
    ensures Neighbour(order, k - 1) < |es| && Neighbour(order, k) < |es|
    ensures var es' := BetweenLinked(es, Neighbour(order, k - 1), a, Neighbour(order, k), value);
      |es'| == |es| && Spliced(es, es', order, k, a, value)
  {
    ChainUnique(es, order);
    assert 0 < k ==> Placed(es[order[k - 1]], order, k - 1);
    assert k < |order| ==> Placed(es[order[k]], order, k);
  }

  lemma BetweenLinkedThreaded<T>(
    es: seq<Element<T>>, order: seq<nat>, stack: seq<nat>, template: Element<T>, k: nat, a: nat, value: T)
    requires Threaded(es, order, stack, template) && Loose(es, order, a) && k <= |order|
    ensures Neighbour(order, k - 1) < |es| && Neighbour(order, k) < |es|
    ensures var es' := BetweenLinked(es, Neighbour(order, k - 1), a, Neighbour(order, k), value);
      var all := With(order, k, a);
      && Threaded(es', all, stack, template)
      && ItemsOf(es', all) == With(ItemsOf(es, order), k, Item(a, value))
      && |es'| == |es|
  {
    var p, n := Neighbour(order, k - 1), Neighbour(order, k);
    BetweenSpliced(es, order, k, a, value);
    OutsideKept(es, BetweenLinked(es, p, a, n, value), order, p, n, a);
    hide Linked, Loose, Blank, Spliced, BetweenLinked, Neighbour;
    SplicedThreaded(es, BetweenLinked(es, p, a, n, value), order, stack, template, k, a, value);
  }

  /** What doRemove reads about the neighbours of the element it unlinks. */
  ghost predicate Removable<T>(es: seq<Element<T>>, a: nat) {
    && 0 < a < |es| && es[a].addr == a
    && es[a].prev < |es| && es[a].next < |es|
    && (es[a].prev != NIL ==> es[es[a].prev].addr == es[a].prev && es[a].prev != es[a].next)
    && (es[a].next != NIL ==> es[es[a].next].addr == es[a].next)
  }

  lemma LinkedRemovable<T>(es: seq<Element<T>>, order: seq<nat>, k: nat)
    requires Linked(es, order, First(order), Last(order)) && k < |order|
    ensures var a := order[k]; var rest := Without(order, k);
      && Removable(es, a)
      && First(rest) == (if es[a].prev == NIL then es[a].next else First(order))
      && Last(rest) == (if es[a].next == NIL then es[a].prev else Last(order))
  {
    ChainUnique(es, order);
    assert Placed(es[order[k]], order, k);
    assert 0 < k ==> Placed(es[order[k - 1]], order, k - 1);
    assert k + 1 < |order| ==> Placed(es[order[k + 1]], order, k + 1);
  }

  lemma UnlinkedBlank<T>(es: seq<Element<T>>, order: seq<nat>, stack: seq<nat>, template: Element<T>, k: nat)
    requires Threaded(es, order, stack, template) && k < |order| && Removable(es, order[k])
    ensures Blank(Unlinked(es, order[k]), stack, template)
    ensures |Unlinked(es, order[k])| == |es|
  {
    var a, es' := order[k], Unlinked(es, order[k]);
    var p, n := Neighbour(order, k - 1), Neighbour(order, k + 1);
    assert Placed(es[order[k]], order, k);
    assert es[a].prev == p && es[a].next == n;
    OutsideKept(es, es', order, p, n, a);
    SpliceKeepsBlank(es, es', order, stack, template, a);
  }

  /** putElement on a slot outside the chain. */
  lemma SlotFreed<T>(es: seq<Element<T>>, order: seq<nat>, stack: seq<nat>, template: Element<T>, a: nat)
    requires Linked(es, order, First(order), Last(order)) && Blank(es, stack, template)
    requires template.prev == NIL && template.addr == NIL && template.next == NIL
    requires 0 < a < |es| && a !in order
    ensures Threaded(es[a := template], order, stack + [a], template)
    ensures ItemsOf(es[a := template], order) == ItemsOf(es, order)
  {
    ChainFrame(es, es[a := template], order);
    hide Linked;
  }

  /** Removing position k of the chain: doRemove, then putElement. */
  lemma ReleasedThreaded<T>(es: seq<Element<T>>, order: seq<nat>, stack: seq<nat>, template: Element<T>, k: nat)
    requires Threaded(es, order, stack, template) && k < |order|
    ensures Removable(es, order[k])
    ensures var a := order[k]; var rest := Without(order, k);
      var es' := Unlinked(es, a)[a := template];
      && Threaded(es', rest, stack + [a], template)
      && ItemsOf(es', rest) == Without(ItemsOf(es, order), k)
  {
    var a, rest := order[k], Without(order, k);
    LinkedRemovable(es, order, k);
    UnlinkedBlank(es, order, stack, template, k);
    UnlinkedLeaves(es, order, k);
    LinkedUnlinked(es, order, k);
    ItemsUnlinked(es, order, k);
    hide Linked, Blank, Unlinked, Without, ItemsOf;
    SlotFreed(Unlinked(es, a), rest, stack, template, a);
  }

  /** What is left once the slot is released, and the store is reset if that emptied it. */
  lemma DetachedModel<T>(es: seq<Element<T>>, order: seq<nat>, stack: seq<nat>, template: Element<T>, k: nat)
    requires Threaded(es, order, stack, template) && k < |order|
    requires Wf(Store(ItemsOf(es, order), stack, |es|))
    ensures Removable(es, order[k]) && Wf(Removed(Store(ItemsOf(es, order), stack, |es|), k))
    ensures var es' := Unlinked(es, order[k])[order[k] := template]; var rest := Without(order, k);
      && Threaded(es', rest, stack + [order[k]], template)
      && (|order| > 1 ==>
            Removed(Store(ItemsOf(es, order), stack, |es|), k)
            == Store(ItemsOf(es', rest), stack + [order[k]], |es'|))
      && (|order| == 1 ==> Removed(Store(ItemsOf(es, order), stack, |es|), k) == Store([], [], 1))
  {
    RemovedWf(Store(ItemsOf(es, order), stack, |es|), k);
    ReleasedThreaded(es, order, stack, template, k);
  }

  lemma EmptyThreaded<T>(es: seq<Element<T>>, template: Element<T>)
    requires template.prev == NIL && template.addr == NIL && template.next == NIL
    ensures Threaded(es, [], [], template) && ItemsOf(es, []) == []
  {
  }

  /** The slice after getElement has taken the slot on top of the stack, or a new one. */
  function Taken<T>(es: seq<Element<T>>, stack: seq<nat>, template: Element<T>): seq<Element<T>>
    requires stack != [] ==> stack[|stack| - 1] < |es|
  {
    if stack != [] then
      var a := stack[|stack| - 1];
      es[a := es[a].(addr := a)]
    else
      var es' := if es == [] then [template] else es;
      es' + [template.(addr := |es'|)]
  }

  /** The other free slots stay blank. */
  lemma TakenBlank<T>(es: seq<Element<T>>, stack: seq<nat>, template: Element<T>)
    requires Blank(es, stack, template) && Unique(stack)
    ensures Blank(Taken(es, stack, template), Popped(stack), template)
  {
  }

  lemma TakenThreaded<T>(es: seq<Element<T>>, order: seq<nat>, stack: seq<nat>, template: Element<T>)
    requires Threaded(es, order, stack, template) && Wf(Store(ItemsOf(es, order), stack, |es|))
    ensures var a := NextAddr(Store(ItemsOf(es, order), stack, |es|));
      var es' := Taken(es, stack, template);
      && Threaded(es', order, Popped(stack), template)
      && ItemsOf(es', order) == ItemsOf(es, order)
      && Loose(es', order, a)
      && |es'| == (if stack != [] then |es| else a + 1)
  {
    var s := Store(ItemsOf(es, order), stack, |es|);
    var es', a := Taken(es, stack, template), NextAddr(s);
    NextAddrFresh(s);
    forall i | 0 <= i < |order|
      ensures order[i] != a
    {
      assert s.items[i].addr == order[i];
    }
    TakenBlank(es, stack, template);
    if es == [] {
      assert order == [] by { assert s.items == []; }
    } else {
      ChainFrame(es, es', order);
    }
  }

  /** What InsertAfter and InsertBefore read about the neighbours p and n of the new slot a. */
  ghost predicate Between<T>(es: seq<Element<T>>, p: nat, a: nat, n: nat) {
    && a < |es| && p < |es| && n < |es|
    && es[a].addr == a && a != NIL && a != p && a != n
    && (p != NIL ==> es[p].addr == p && es[p].next == n && p != n)
    && (n != NIL ==> es[n].addr == n && es[n].prev == p)
  }

  lemma LooseBetween<T>(es: seq<Element<T>>, order: seq<nat>, k: nat, a: nat)
    requires Linked(es, order, First(order), Last(order)) && Loose(es, order, a) && k <= |order|
    ensures Between(es, Neighbour(order, k - 1), a, Neighbour(order, k))
    ensures First(With(order, k, a)) == if Neighbour(order, k - 1) == NIL then a else First(order)
    ensures Last(With(order, k, a)) == if Neighbour(order, k) == NIL then a else Last(order)
  {
    ChainUnique(es, order);
    assert 0 < k ==> Placed(es[order[k - 1]], order, k - 1);
    assert k < |order| ==> Placed(es[order[k]], order, k);
  }

  /** Storing a value in a loose slot. */
  lemma LooseValue<T>(es: seq<Element<T>>, order: seq<nat>, stack: seq<nat>, template: Element<T>, a: nat, value: T)
    requires Threaded(es, order, stack, template) && Loose(es, order, a)
    ensures var es' := es[a := es[a].(value := value)];
      && Threaded(es', order, stack, template)
      && ItemsOf(es', order) == ItemsOf(es, order)
      && Loose(es', order, a)
  {
    var es' := es[a := es[a].(value := value)];
    ChainFrame(es, es', order);
    SpliceKeepsBlank(es, es', order, stack, template, a);
  }

  /** Clearing the links of an element that has just been unlinked. */
  lemma LinksCleared<T>(
    es: seq<Element<T>>, order: seq<nat>, stack: seq<nat>, template: Element<T>, a: nat)
    requires Threaded(es, order, stack, template) && 0 < a < |es| && a !in order && es[a].addr == a
    ensures var es' := es[a := es[a].(prev := NIL, next := NIL)];
      && Threaded(es', order, stack, template) && Loose(es', order, a)
      && ItemsOf(es', order) == ItemsOf(es, order)
  {
    var es' := es[a := es[a].(prev := NIL, next := NIL)];
    ChainFrame(es, es', order);
    SpliceKeepsBlank(es, es', order, stack, template, a);
  }

  /** doRemove, then clearing the removed element's links: it is loose again. */
  lemma LoosenedThreaded<T>(
    es: seq<Element<T>>, order: seq<nat>, stack: seq<nat>, template: Element<T>, k: nat)
    requires Threaded(es, order, stack, template) && k < |order|
    ensures Removable(es, order[k])
    ensures var a := order[k]; var rest := Without(order, k);
      var es' := Unlinked(es, a)[a := Unlinked(es, a)[a].(prev := NIL, next := NIL)];
      && Threaded(es', rest, stack, template) && Loose(es', rest, a)
      && ItemsOf(es', rest) == Without(ItemsOf(es, order), k)
      && |es'| == |es| && es'[a].value == es[a].value
  {
    var a, rest := order[k], Without(order, k);
    LinkedRemovable(es, order, k);
    UnlinkedBlank(es, order, stack, template, k);
    UnlinkedLeaves(es, order, k);
    LinkedUnlinked(es, order, k);
    ItemsUnlinked(es, order, k);
    hide Linked, Blank, Unlinked, Without, ItemsOf;
    LinksCleared(Unlinked(es, a), rest, stack, template, a);
  }

  lemma UpdatedThreaded<T>(
    es: seq<Element<T>>, order: seq<nat>, stack: seq<nat>, template: Element<T>, k: nat, value: T)
    requires Threaded(es, order, stack, template) && k < |order|
    ensures Threaded(es[order[k] := es[order[k]].(value := value)], order, stack, template)
  {
    var es' := es[order[k] := es[order[k]].(value := value)];
    assert Placed(es[order[k]], order, k);
    forall i | 0 <= i < |order|
      ensures Placed(es'[order[i]], order, i)
    {
      assert Placed(es[order[i]], order, i);
    }
    SpliceKeepsBlank(es, es', order, stack, template, order[k]);
  }

  lemma ItemsUpdated<T>(es: seq<Element<T>>, order: seq<nat>, k: nat, value: T)
    requires Linked(es, order, First(order), Last(order)) && k < |order|
    ensures ItemsOf(es[order[k] := es[order[k]].(value := value)], order)
         == ItemsOf(es, order)[k := Item(order[k], value)]
  {
    ChainUnique(es, order);
  }

  /** Every element leads to its successor in the chain. */
  lemma NextInChain<T>(es: seq<Element<T>>, order: seq<nat>, k: nat)
    requires Linked(es, order, First(order), Last(order)) && k < |order|
    ensures es[order[k]].addr == order[k] && es[order[k]].next == Neighbour(order, k + 1) && order[k] != NIL
  {
    assert Placed(es[order[k]], order, k);
  }

  lemma ChainEnds<T>(es: seq<Element<T>>, order: seq<nat>, k: nat)
    requires Linked(es, order, First(order), Last(order)) && k <= |order|
    ensures Neighbour(order, k) == NIL ==> k == |order|
  {
  }

  class Deque<T> {
    const template: Element<T>
    var elements: seq<Element<T>>
    var stack: seq<nat>
    var head: nat
    var tail: nat
    var length: int
    ghost var order: seq<nat>

    ghost predicate Chain()
      reads this
    {
      Threaded(elements, order, stack, template) && head == First(order) && tail == Last(order)
    }

    ghost predicate Valid()
      reads this
    {
      Chain() && length == |order| && Wf(Model())
    }

    ghost function Items(): seq<Item<T>>
      reads this
      requires Chain()
    {
      ItemsOf(elements, order)
    }

    ghost function Model(): Store<T>
      reads this
      requires Chain()
    {
      Store(Items(), stack, |elements|)
    }

    /** The zero Deque: no slots at all, not even the nil slot. */
    constructor Zero(zero: T)
      ensures Valid() && Model() == Store([], [], 0) && template.value == zero
    {
      template := Element(zero, NIL, NIL, NIL);
      elements, stack, order := [], [], [];
      head, tail, length := NIL, NIL, 0;
    }

    /** New: only the nil slot. */
    constructor New(zero: T)
      ensures Valid() && Model() == Store([], [], 1) && template.value == zero
    {
      template := Element(zero, NIL, NIL, NIL);
      elements, stack, order := [Element(zero, NIL, NIL, NIL)], [], [];
      head, tail, length := NIL, NIL, 0;
    }

    // -------------------------------------------------------------- slots

    method GetElement() returns (a: nat)
      requires Chain() && Wf(Model()) && CanAllocate(Model())
      modifies this`elements, this`stack
      ensures Chain() && Items() == old(Items()) && Loose(elements, order, a)
      ensures a == NextAddr(old(Model())) && stack == Popped(old(stack))
      ensures |elements| == if old(stack) != [] then old(|elements|) else a + 1
    {
      TakenThreaded(elements, order, stack, template);
      a := TakeSlot();
    }

    method TakeSlot() returns (a: nat)
      requires stack != [] ==> stack[|stack| - 1] < |elements|
      modifies this`elements, this`stack
      ensures a == NextSlot(old(stack), old(|elements|))
      ensures elements == Taken(old(elements), old(stack), template) && stack == Popped(old(stack))
    {
      if |elements| == 0 {
        elements := elements + [template];
      }
      if |stack| > 0 {
        a := stack[|stack| - 1];
        stack := stack[..|stack| - 1];
        elements := elements[a := elements[a].(addr := a)];
      } else {
        a := |elements|;
        elements := elements + [template];
        elements := elements[a := elements[a].(addr := a)];
      }
    }

    method PutElement(a: nat)
      requires a < |elements| && elements[a].addr == a
      modifies this`elements, this`stack
      ensures elements == old(elements)[a := template] && stack == old(stack) + [a]
    {
      stack := stack + [elements[a].addr];
      elements := elements[a := template];
    }

    method AutoReset()
      requires |elements| > 0
      modifies this`elements, this`stack, this`head, this`tail, this`length
      ensures head == NIL && tail == NIL && length == 0 && stack == [] && elements == [old(elements)[0]]
    {
      head, tail, length := NIL, NIL, 0;
      stack := [];
      elements := elements[..1];
    }

    // -------------------------------------------------------------- links

    method DoPushFront(a: nat)
      requires Chain() && Loose(elements, order, a)
      modifies this`elements, this`order, this`head, this`tail, this`length
      ensures Chain() && length == old(length) + 1 && |order| == old(|order|) + 1 && |elements| == old(|elements|)
      ensures Items() == With(old(Items()), 0, Item(a, old(elements[a].value)))
    {
      FrontLinkedThreaded(elements, order, stack, template, a);
      order := With(order, 0, a);
      length := length + 1;
      if head == NIL {
        head, tail := elements[a].addr, elements[a].addr;
        return;
      }
      elements := elements[head := elements[head].(prev := elements[a].addr)];
      elements := elements[a := elements[a].(next := elements[head].addr)];
      head := elements[a].addr;
    }

    method DoPushBack(a: nat)
      requires Chain() && Loose(elements, order, a)
      modifies this`elements, this`order, this`head, this`tail, this`length
      ensures Chain() && length == old(length) + 1 && |order| == old(|order|) + 1 && |elements| == old(|elements|)
      ensures Items() == With(old(Items()), old(|order|), Item(a, old(elements[a].value)))
    {
      BackLinkedThreaded(elements, order, stack, template, a);
      order := With(order, |order|, a);
      length := length + 1;
      if tail == NIL {
        head, tail := elements[a].addr, elements[a].addr;
        return;
      }
      elements := elements[tail := elements[tail].(next := elements[a].addr)];
      elements := elements[a := elements[a].(prev := elements[tail].addr)];
      tail := elements[a].addr;
    }

    method DoRemove(a: nat)
      requires Removable(elements, a)
      modifies this`elements, this`head, this`tail, this`length
      ensures elements == Unlinked(old(elements), a) && length == old(length) - 1
      ensures head == (if old(elements)[a].prev == NIL then old(elements)[a].next else old(head))
      ensures tail == (if old(elements)[a].next == NIL then old(elements)[a].prev else old(tail))
    {
      var prev, next := elements[a].prev, elements[a].next;
      var state := 0;
      if prev != NIL {
        state := state + 1;
      }
      if next != NIL {
        state := state + 2;
      }
      length := length - 1;
      match state {
        case 3 =>
          elements := elements[prev := elements[prev].(next := elements[next].addr)];
          elements := elements[next := elements[next].(prev := elements[prev].addr)];
        case 2 =>
          elements := elements[next := elements[next].(prev := NIL)];
          head := elements[next].addr;
        case 1 =>
          elements := elements[prev := elements[prev].(next := NIL)];
          tail := elements[prev].addr;
        case _ =>
          head := NIL;
          tail := NIL;
      }
    }

    // -------------------------------------------------------------- the public operations

    method PushFront(value: T) returns (a: nat)
      requires Valid() && CanAllocate(Model())
      modifies this
      ensures Valid() && Model() == Apply(old(Model()), Op.PushFront(value)) && a == NextAddr(old(Model()))
    {
      InsertedWf(Model(), 0, value);
      a := GetElement();
      LooseValue(elements, order, stack, template, a, value);
      elements := elements[a := elements[a].(value := value)];
      DoPushFront(a);
    }

    method PushBack(value: T) returns (a: nat)
      requires Valid() && CanAllocate(Model())
      modifies this
      ensures Valid() && Model() == Apply(old(Model()), Op.PushBack(value)) && a == NextAddr(old(Model()))
    {
      InsertedWf(Model(), |order|, value);
      a := GetElement();
      LooseValue(elements, order, stack, template, a, value);
      elements := elements[a := elements[a].(value := value)];
      DoPushBack(a);
    }

    method PopFront() returns (value: T)
      requires Valid()
      modifies this
      ensures Valid() && Model() == Apply(old(Model()), Op<T>.PopFront)
      ensures value == if old(Items()) == [] then template.value else old(Items())[0].value
    {
      value := template.value;
      var a := head;
      if a != NIL {
        value := elements[a].value;
        Detach(a, 0);
      }
    }

    method PopBack() returns (value: T)
      requires Valid()
      modifies this
      ensures Valid() && Model() == Apply(old(Model()), Op<T>.PopBack)
      ensures value == if old(Items()) == [] then template.value else old(Items())[|old(Items())| - 1].value
    {
      value := template.value;
      var a := tail;
      if a != NIL {
        value := elements[a].value;
        Detach(a, |order| - 1);
      }
    }

    method Remove(a: nat)
      requires Valid() && Legal(Model(), Op<T>.Remove(a))
      modifies this
      ensures Valid() && Model() == Apply(old(Model()), Op<T>.Remove(a))
    {
      if a != NIL {
        Detach(a, Index(Items(), a));
      }
    }

    /** The common tail of PopFront, PopBack and Remove. */
    method Detach(a: nat, ghost k: nat)
      requires Valid() && k < |order| && order[k] == a
      modifies this
      ensures Valid() && Model() == Removed(old(Model()), k)
    {
      hide Linked, Blank, Unlinked;
      UnlinkedLeaves(elements, order, k);
      DetachedModel(elements, order, stack, template, k);
      LinkedRemovable(elements, order, k);
      DoRemove(a);
      PutElement(a);
      order := Without(order, k);
      if length == 0 {
        AutoReset();
        order := [];
        EmptyThreaded(elements, template);
      }
    }

    method InsertAfter(value: T, mark: nat) returns (a: nat)
      requires Valid() && Legal(Model(), Op.InsertAfter(value, mark))
      modifies this
      ensures Valid() && Model() == Apply(old(Model()), Op.InsertAfter(value, mark))
      ensures a == if mark == NIL then NIL else NextAddr(old(Model()))
    {
      hide Linked, Blank, Loose, With;
      if mark == NIL {
        return NIL;
      }
      ghost var k := Index(Items(), mark) + 1;
      InsertedWf(Model(), k, value);
      length := length + 1;
      a := GetElement();
      LinkAfter(a, value, mark, k);
    }

    method LinkAfter(a: nat, value: T, mark: nat, ghost k: nat)
      requires Chain() && Loose(elements, order, a) && 0 < k <= |order| && order[k - 1] == mark
      modifies this`elements, this`tail, this`order
      ensures Chain() && |order| == old(|order|) + 1 && |elements| == old(|elements|)
      ensures Items() == With(old(Items()), k, Item(a, value))
    {
      hide Linked, Blank, ItemsOf, Between;
      LooseBetween(elements, order, k, a);
      BetweenLinkedThreaded(elements, order, stack, template, k, a, value);
      WriteAfter(a, value, mark, Neighbour(order, k));
      order := With(order, k, a);
    }

    method WriteAfter(a: nat, value: T, mark: nat, ghost n: nat)
      requires mark != NIL && Between(elements, mark, a, n)
      modifies this`elements, this`tail
      ensures elements == BetweenLinked(old(elements), mark, a, n, value)
      ensures tail == if n == NIL then a else old(tail)
    {
      var next := elements[mark].next;
      elements := elements[a := elements[a].(prev := elements[mark].addr, next := next, value := value)];
      if next != NIL {
        elements := elements[next := elements[next].(prev := elements[a].addr)];
      }
      elements := elements[mark := elements[mark].(next := elements[a].addr)];
      if elements[a].next == NIL {
        tail := elements[a].addr;
      }
    }

    method InsertBefore(value: T, mark: nat) returns (a: nat)
      requires Valid() && Legal(Model(), Op.InsertBefore(value, mark))
      modifies this
      ensures Valid() && Model() == Apply(old(Model()), Op.InsertBefore(value, mark))
      ensures a == if mark == NIL then NIL else NextAddr(old(Model()))
    {
      hide Linked, Blank, Loose, With;
      if mark == NIL {
        return NIL;
      }
      ghost var k := Index(Items(), mark);
      InsertedWf(Model(), k, value);
      length := length + 1;
      a := GetElement();
      LinkBefore(a, value, mark, k);
    }

    method LinkBefore(a: nat, value: T, mark: nat, ghost k: nat)
      requires Chain() && Loose(elements, order, a) && k < |order| && order[k] == mark
      modifies this`elements, this`head, this`order
      ensures Chain() && |order| == old(|order|) + 1 && |elements| == old(|elements|)
      ensures Items() == With(old(Items()), k, Item(a, value))
    {
      hide Linked, Blank, ItemsOf, Between;
      LooseBetween(elements, order, k, a);
      BetweenLinkedThreaded(elements, order, stack, template, k, a, value);
      WriteBefore(a, value, mark, Neighbour(order, k - 1));
      order := With(order, k, a);
    }

    method WriteBefore(a: nat, value: T, mark: nat, ghost p: nat)
      requires mark != NIL && Between(elements, p, a, mark)
      modifies this`elements, this`head
      ensures elements == BetweenLinked(old(elements), p, a, mark, value)
      ensures head == if p == NIL then a else old(head)
    {
      var prev := elements[mark].prev;
      elements := elements[a := elements[a].(prev := prev, next := elements[mark].addr, value := value)];
      if prev != NIL {
        elements := elements[prev := elements[prev].(next := elements[a].addr)];
      }
      elements := elements[mark := elements[mark].(prev := elements[a].addr)];
      if elements[a].prev == NIL {
        head := elements[a].addr;
      }
    }

    /** The first half of a move: doRemove, then clearing the element's own links. */
    method Loosen(a: nat, ghost k: nat)
      requires Chain() && k < |order| && order[k] == a
      modifies this`elements, this`order, this`head, this`tail, this`length
      ensures Chain() && Loose(elements, order, a) && elements[a].value == old(elements)[a].value
      ensures Items() == Without(old(Items()), k) && order == Without(old(order), k)
      ensures length == old(length) - 1 && |elements| == old(|elements|)
    {
      hide Linked, Blank, Without, ItemsOf;
      LoosenedThreaded(elements, order, stack, template, k);
      LinkedRemovable(elements, order, k);
      DoRemove(a);
      elements := elements[a := elements[a].(prev := NIL, next := NIL)];
      order := Without(order, k);
    }

    method MoveToBack(a: nat)
      requires Valid() && Legal(Model(), Op<T>.MoveToBack(a))
      modifies this
      ensures Valid() && Model() == Apply(old(Model()), Op<T>.MoveToBack(a))
    {
      if a != NIL {
        ghost var k := Index(Items(), a);
        assert |Without(Items(), k)| == |Items()| - 1;
        hide Linked, Blank, With, Without;
        MovedWf(Model(), k);
        Loosen(a, k);
        DoPushBack(a);
      }
    }

    method MoveToFront(a: nat)
      requires Valid() && Legal(Model(), Op<T>.MoveToFront(a))
      modifies this
      ensures Valid() && Model() == Apply(old(Model()), Op<T>.MoveToFront(a))
    {
      hide Linked, Blank, With, Without;
      if a != NIL {
        ghost var k := Index(Items(), a);
        MovedWf(Model(), k);
        Loosen(a, k);
        DoPushFront(a);
      }
    }

    method Update(a: nat, value: T)
      requires Valid() && Legal(Model(), Op.Update(a, value))
      modifies this`elements
      ensures Valid() && Model() == Apply(old(Model()), Op.Update(a, value))
    {
      if a != NIL {
        UpdatedWf(Model(), Index(Items(), a), value);
        UpdatedThreaded(elements, order, stack, template, Index(Items(), a), value);
        ItemsUpdated(elements, order, Index(Items(), a), value);
        elements := elements[a := elements[a].(value := value)];
      }
    }

    method Reset()
      requires Valid() && Legal(Model(), Op<T>.Reset)
      modifies this
      ensures Valid() && Model() == Apply(old(Model()), Op<T>.Reset)
    {
      AutoReset();
      order := [];
      EmptyThreaded(elements, template);
    }

    /** Range calls f on the elements from head to tail and stops after the first false. */
    method Range(f: Item<T> -> bool) returns (visited: seq<Item<T>>)
      requires Valid()
      ensures visited == UpToFirstFalse(Items(), f)
    {
      visited := [];
      var i := head;
      ghost var items, k := Items(), 0;
      while i != NIL
        invariant 0 <= k <= |order| && i == Neighbour(order, k)
        invariant visited == items[..k]
        invariant UpToFirstFalse(items, f) == items[..k] + UpToFirstFalse(items[k..], f)
        decreases |order| - k
      {
        NextInChain(elements, order, k);
        UpToFirstFalseStep(items, k, f);
        var item := Item(elements[i].addr, elements[i].value);
        visited := visited + [item];
        if !f(item) {
          return;
        }
        i := elements[i].next;
        k := k + 1;
      }
      ChainEnds(elements, order, k);
    }

    /** Clone copies the slice and the stack; later changes to either deque leave the other alone. */
    method Clone() returns (d: Deque<T>)
      requires Valid()
      ensures fresh(d) && d.Valid() && d.Model() == Model() && d.template == template
    {
      hide Linked, Blank, ItemsOf, Wf;
      d := new Deque.New(template.value);
      d.elements, d.stack, d.head, d.tail, d.length := elements, stack, head, tail, length;
      d.order := order;
    }
  }
}
