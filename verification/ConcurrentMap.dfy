/** session_storage.go: ConcurrentMap, a map split over shards chosen by the key's hash. The
    operations are taken one at a time; each holds one shard's lock at once. */
module ConcurrentMaps {
  import opened Words
  import opened Bits
  import opened PowersOfTwo

  /** The shard of a key: the low bits of its hash. */
  function Home(hash: bv64, num: bv64): nat { Val(And(hash, Below(num))) }

  /** With a power-of-two shard count the low bits are the remainder, so the index is in range. */
  lemma HomeIsRemainder(hash: bv64, num: bv64)
    requires IsPow2Word(num)
    ensures Val(num) > 0 && Home(hash, num) == Val(hash) % Val(num) < Val(num)
  {
    hide IsPow2Word, Val, And, Below;
    AndIsMod(hash, num);
  }

  lemma DoublePow2(w: bv64)
    requires IsPow2Word(Half(w)) && !Odd(w)
    ensures IsPow2Word(w)
  {
  }

  lemma {:induction false} Pow2ValWord(w: bv64, k: nat)
    requires Val(w) == Pow2(k)
    ensures IsPow2Word(w)
    decreases k
  {
    hide Half, Odd, IsPow2Word, Val;
    ValUnfold(w);
    if k == 0 {
      OneIsPow2();
      ValUnfold(0);
      ValUnfold(1);
      Small();
      ValInjective(w, 1);
    } else {
      Pow2ValWord(Half(w), k - 1);
      DoublePow2(w);
    }
  }

  lemma OneIsPow2()
    ensures IsPow2Word(1)
  {
  }

  // ---------------------------------------------------------------- shards as one map

  function Empty<K, V>(n: nat): seq<map<K, V>> {
    seq(n, _ => map[])
  }

  function Merge<K, V>(shards: seq<map<K, V>>): map<K, V> {
    if shards == [] then map[] else Merge(shards[..|shards| - 1]) + shards[|shards| - 1]
  }

  function Sizes<K, V>(shards: seq<map<K, V>>): nat {
    if shards == [] then 0 else Sizes(shards[..|shards| - 1]) + |shards[|shards| - 1]|
  }

  /** Keys live only in their own shard. */
  ghost predicate Homed<K(!new), V>(shards: seq<map<K, V>>, home: K -> nat) {
    forall i, k :: 0 <= i < |shards| && k in shards[i] ==> home(k) == i
  }

  lemma {:induction false} MergeAt<K(!new), V>(shards: seq<map<K, V>>, home: K -> nat, k: K)
    requires Homed(shards, home)
    ensures k in Merge(shards) <==> home(k) < |shards| && k in shards[home(k)]
    ensures k in Merge(shards) ==> Merge(shards)[k] == shards[home(k)][k]
    decreases |shards|
  {
    if shards != [] {
      var init := shards[..|shards| - 1];
      assert Homed(init, home);
      MergeAt(init, home, k);
    }
  }

  lemma {:induction false} MergeSize<K(!new), V>(shards: seq<map<K, V>>, home: K -> nat)
    requires Homed(shards, home)
    ensures |Merge(shards)| == Sizes(shards)
    decreases |shards|
  {
    if shards != [] {
      var init, last := shards[..|shards| - 1], shards[|shards| - 1];
      assert Homed(init, home);
      MergeSize(init, home);
      forall k | k in Merge(init)
        ensures k !in last
      {
        MergeAt(init, home, k);
      }
      DisjointSize(Merge(init), last);
    }
  }

  lemma DisjointSize<K, V>(a: map<K, V>, b: map<K, V>)
    requires a.Keys !! b.Keys
    ensures |a + b| == |a| + |b|
  {
    assert (a + b).Keys == a.Keys + b.Keys;
    assert |a + b| == |(a + b).Keys| && |a| == |a.Keys| && |b| == |b.Keys|;
  }

  /** Changing one shard at one key changes the merged map at that key only. */
  lemma MergeUpdate<K(!new), V>(shards: seq<map<K, V>>, home: K -> nat, k: K, shard: map<K, V>)
    requires Homed(shards, home) && home(k) < |shards|
    requires forall x :: x != k ==> (x in shard <==> x in shards[home(k)])
    requires forall x :: x != k && x in shard ==> shard[x] == shards[home(k)][x]
    ensures var now := shards[home(k) := shard];
      && Homed(now, home)
      && (k in Merge(now) <==> k in shard) && (k in shard ==> Merge(now)[k] == shard[k])
      && (forall x :: x != k ==> (x in Merge(now) <==> x in Merge(shards)))
      && (forall x :: x != k && x in Merge(now) ==> Merge(now)[x] == Merge(shards)[x])
  {
    hide Merge;
    var now := shards[home(k) := shard];
    assert Homed(now, home);
    MergeAt(now, home, k);
    forall x | x != k
      ensures x in Merge(now) <==> x in Merge(shards)
      ensures x in Merge(now) ==> Merge(now)[x] == Merge(shards)[x]
    {
      MergeAt(shards, home, x);
      MergeAt(now, home, x);
    }
  }

  datatype Loaded<V> = Missing | Found(value: V)

  class ConcurrentMap<K(!new, ==), V> {
    const hasher: K -> bv64
    const num: bv64
    var shardings: seq<map<K, V>>

    ghost function HomeOf(): K -> nat {
      (k: K) => Home(hasher(k), num)
    }

    ghost predicate Valid()
      reads this
    {
      IsPow2Word(num) && |shardings| == Val(num) && Homed(shardings, HomeOf())
    }

    /** The one map the shards stand for. */
    ghost function Contents(): map<K, V>
      reads this
    {
      Merge(shardings)
    }

    /** NewConcurrentMap; above 2^63 the rounding of the shard count would not end. */
    constructor (size: nat, hasher: K -> bv64)
      requires size <= Pow2(63)
      ensures Valid() && Contents() == map[] && this.hasher == hasher
      ensures Val(num) == CeilPow2(if size == 0 then 16 else size)
    {
      hide Val, IsPow2Word, Word, Merge, CeilPow2, IsLeastPow2;
      var n := if size == 0 then 16 else size;
      Sixteen();
      var x := ToBinaryNumber(n, 64);
      ShardCount(n, x);
      this.hasher := hasher;
      num := Word(x, 8);
      shardings := Empty(x);
      EmptyMerge<K, V>(x);
    }

    method GetSharding(key: K) returns (index: nat)
      requires Valid()
      ensures index == Val(hasher(key)) % Val(num) == HomeOf()(key) && index < |shardings|
      ensures forall i :: 0 <= i < |shardings| && i != index ==> key !in shardings[i]
      ensures key in shardings[index] <==> key in Contents()
    {
      hide Val, IsPow2Word;
      MergeAt(shardings, HomeOf(), key);
      HomeIsRemainder(hasher(key), num);
      index := Home(hasher(key), num);
    }

    method Load(key: K) returns (r: Loaded<V>)
      requires Valid()
      ensures r == if key in Contents() then Found(Contents()[key]) else Missing
    {
      hide Val, IsPow2Word;
      var i := GetSharding(key);
      MergeAt(shardings, HomeOf(), key);
      r := if key in shardings[i] then Found(shardings[i][key]) else Missing;
    }

    method Store(key: K, value: V)
      requires Valid()
      modifies this
      ensures Valid() && Contents() == old(Contents())[key := value]
    {
      hide Val, IsPow2Word, Merge, Homed;
      var i := GetSharding(key);
      MergeUpdate(shardings, HomeOf(), key, shardings[i][key := value]);
      shardings := shardings[i := shardings[i][key := value]];
    }

    method Delete(key: K)
      requires Valid()
      modifies this
      ensures Valid() && Contents() == old(Contents()) - {key}
    {
      hide Val, IsPow2Word, Merge, Homed;
      var i := GetSharding(key);
      MergeUpdate(shardings, HomeOf(), key, shardings[i] - {key});
      shardings := shardings[i := shardings[i] - {key}];
    }

    method Len() returns (length: nat)
      requires Valid()
      ensures length == |Contents()|
    {
      hide Val, IsPow2Word;
      length := 0;
      for i := 0 to |shardings|
        invariant length == Sizes(shardings[..i])
      {
        assert shardings[..i + 1][..i] == shardings[..i];
        length := length + |shardings[i]|;
      }
      assert shardings[..|shardings|] == shardings;
      MergeSize(shardings, HomeOf());
    }

    /** Range: the pairs f was called with, in order. */
    method Range(f: (K, V) -> bool) returns (calls: seq<Pair<K, V>>)
      requires Valid()
      ensures RangeOver(Contents(), f, calls)
    {
      hide Val, IsPow2Word, Merge, Homed, HomeOf;
      var next := true;
      calls := [];
      var i: nat := 0;
      EmptyRange(shardings, f);
      while i < |shardings| && next
        invariant i <= |shardings|
        invariant RangedTo(shardings, i, f, calls, next)
      {
        var shard;
        shard, next := RangeShard(shardings[i], f);
        RangeNext(shardings, HomeOf(), i, f, calls, shard, next);
        calls := calls + shard;
        i := i + 1;
      }
      RangeDone(shardings, HomeOf(), i, f, calls, next);
    }
  }

  // ---------------------------------------------------------------- Range

  datatype Pair<K, V> = Pair(key: K, value: V)

  /** Every call is for a pair of the map, no key twice, and f held on all but perhaps the last. */
  ghost predicate CallsOf<K(!new), V>(m: map<K, V>, f: (K, V) -> bool, calls: seq<Pair<K, V>>) {
    && (forall j :: 0 <= j < |calls| ==> calls[j].key in m && m[calls[j].key] == calls[j].value)
    && (forall j, l :: 0 <= j < l < |calls| ==> calls[j].key != calls[l].key)
    && (forall j :: 0 <= j < |calls| - 1 ==> f(calls[j].key, calls[j].value))
  }

  ghost predicate Stopped<K, V>(f: (K, V) -> bool, calls: seq<Pair<K, V>>) {
    calls != [] && !f(calls[|calls| - 1].key, calls[|calls| - 1].value)
  }

  ghost predicate Called<K, V>(calls: seq<Pair<K, V>>, k: K) {
    exists j :: 0 <= j < |calls| && calls[j].key == k
  }

  /** Range promises: each pair exactly once, or it stops at the first false. */
  ghost predicate RangeOver<K(!new), V>(m: map<K, V>, f: (K, V) -> bool, calls: seq<Pair<K, V>>) {
    && CallsOf(m, f, calls)
    && (Stopped(f, calls) || forall k :: k in m ==> Called(calls, k))
  }

  /** One shard, in an order of the map's own choosing. */
  method RangeShard<K(!new, ==), V>(m: map<K, V>, f: (K, V) -> bool)
    returns (calls: seq<Pair<K, V>>, next: bool)
    ensures CallsOf(m, f, calls) && next == !Stopped(f, calls)
    ensures next ==> forall k :: k in m ==> Called(calls, k)
  {
    calls, next := [], true;
    var todo := m.Keys;
    while todo != {} && next
      invariant CallsOf(m, f, calls) && next == !Stopped(f, calls)
      invariant forall k :: k in m ==> k in todo || Called(calls, k)
      invariant todo <= m.Keys
      invariant forall j :: 0 <= j < |calls| ==> calls[j].key !in todo
      decreases todo
    {
      var k :| k in todo;
      next := f(k, m[k]);
      ghost var was := calls;
      calls := calls + [Pair(k, m[k])];
      todo := todo - {k};
      assert calls[|was|].key == k;
      forall x | Called(was, x)
        ensures Called(calls, x)
      {
        var j :| 0 <= j < |was| && was[j].key == x;
        assert calls[j].key == x;
      }
    }
  }

  /** What Range has done once the shards before n are visited. */
  ghost predicate RangedTo<K(!new), V>(
    shards: seq<map<K, V>>, n: nat, f: (K, V) -> bool, calls: seq<Pair<K, V>>, next: bool)
    requires n <= |shards|
  {
    && CallsOf(Merge(shards[..n]), f, calls)
    && next == !Stopped(f, calls)
    && (next ==> forall k :: k in Merge(shards[..n]) ==> Called(calls, k))
  }

  lemma EmptyRange<K(!new), V>(shards: seq<map<K, V>>, f: (K, V) -> bool)
    ensures RangedTo(shards, 0, f, [], true)
  {
    assert shards[..0] == [];
  }

  lemma CallsJoin<K(!new), V>(
    a: map<K, V>, b: map<K, V>, f: (K, V) -> bool, inA: seq<Pair<K, V>>, inB: seq<Pair<K, V>>)
    requires CallsOf(a, f, inA) && CallsOf(b, f, inB) && !Stopped(f, inA) && a.Keys !! b.Keys
    ensures CallsOf(a + b, f, inA + inB)
  {
    assert forall j :: 0 <= j < |inA| ==> inA[j].key in a.Keys && inA[j].key !in b;
    assert forall j :: 0 <= j < |inB| ==> inB[j].key in b.Keys && inB[j].key !in a;
  }

  lemma RangeNext<K(!new), V>(
    shards: seq<map<K, V>>, home: K -> nat, n: nat, f: (K, V) -> bool, calls: seq<Pair<K, V>>,
    shard: seq<Pair<K, V>>, next: bool)
    requires Homed(shards, home) && n < |shards|
    requires RangedTo(shards, n, f, calls, true)
    requires CallsOf(shards[n], f, shard) && next == !Stopped(f, shard)
    requires next ==> forall k :: k in shards[n] ==> Called(shard, k)
    ensures RangedTo(shards, n + 1, f, calls + shard, next)
  {
    var before, after, all := Merge(shards[..n]), Merge(shards[..n + 1]), calls + shard;
    assert shards[..n + 1][..n] == shards[..n];
    assert after == before + shards[n];
    forall k | k in before
      ensures k !in shards[n]
    {
      MergeAt(shards[..n], home, k);
    }
    CallsJoin(before, shards[n], f, calls, shard);
    assert shard != [] ==> all[|all| - 1] == shard[|shard| - 1];
    assert shard == [] ==> all == calls;
    hide CallsOf, Merge, Homed;
    if next {
      forall k | k in after
        ensures Called(all, k)
      {
        if k in before {
          var j :| 0 <= j < |calls| && calls[j].key == k;
          assert all[j].key == k;
        } else {
          var j :| 0 <= j < |shard| && shard[j].key == k;
          assert all[|calls| + j].key == k;
        }
      }
    }
  }

  lemma RangeDone<K(!new), V>(
    shards: seq<map<K, V>>, home: K -> nat, n: nat, f: (K, V) -> bool, calls: seq<Pair<K, V>>,
    next: bool)
    requires Homed(shards, home) && n <= |shards| && (n == |shards| || !next)
    requires RangedTo(shards, n, f, calls, next)
    ensures RangeOver(Merge(shards), f, calls)
  {
    hide Merge, Called, Stopped;
    if n == |shards| {
      assert shards[..n] == shards;
    } else {
      forall j | 0 <= j < |calls|
        ensures calls[j].key in Merge(shards) && Merge(shards)[calls[j].key] == calls[j].value
      {
        MergeAt(shards[..n], home, calls[j].key);
        MergeAt(shards, home, calls[j].key);
      }
    }
  }

  /** The rounded count fits a 64-bit word, and is a power of two there. */
  lemma ShardCount(n: nat, x: nat)
    requires n <= Pow2(63) && IsLeastPow2(n, x)
    ensures Val(Word(x, 8)) == x && IsPow2Word(Word(x, 8))
  {
    hide Val, IsPow2Word, Word;
    var k: nat :| x == Pow2(k);
    assert IsPow2(Pow2(63));
    assert x <= Pow2(63);
    Pow64();
    WordVal(x, 8);
    Pow2ValWord(Word(x, 8), k);
  }

  lemma Sixteen()
    ensures 16 <= Pow2(63)
  {
    assert Pow2(4) == 16;
    Pow2Monotone(4, 63);
  }

  lemma Pow64()
    ensures Pow2(63) < Pow256(8)
  {
    assert Pow2(8) == 256;
    assert Pow2(16) == 0x1_0000;
    assert Pow2(24) == 0x100_0000;
    assert Pow2(32) == 0x1_0000_0000;
    assert Pow2(40) == 0x100_0000_0000;
    assert Pow2(48) == 0x1_0000_0000_0000;
    assert Pow2(56) == 0x100_0000_0000_0000;
    assert Pow2(64) == 0x1_0000_0000_0000_0000;
    Pow2Order(63, 64);
    assert Pow256(4) == 0x1_0000_0000;
  }

  lemma {:induction false} EmptyMerge<K, V>(n: nat)
    ensures Merge(Empty<K, V>(n)) == map[]
    decreases n
  {
    if n > 0 {
      EmptyMerge<K, V>(n - 1);
      assert Empty<K, V>(n)[..n - 1] == Empty<K, V>(n - 1);
    }
  }
}
