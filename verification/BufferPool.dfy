/** internal/pool.go: buffers kept in shards by power-of-two capacity. */
module BufferPools {
  import opened Words
  import opened Bits
  import opened PowersOfTwo

  /** bytes.Buffer, as far as the pool is concerned. */
  class Buffer {
    var data: seq<Byte>
    var cap: nat

    constructor (capacity: nat)
      ensures data == [] && cap == capacity
    {
      data, cap := [], capacity;
    }
  }

  function Max(a: nat, b: nat): nat { if a > b then a else b }

  /** The size class Get looks in. */
  function SizeClass(begin: nat, n: int): nat { Max(Ceil32(n % TWO32), begin) }

  ghost predicate IsShard(begin: nat, end: nat, k: nat) { begin <= k <= end && IsPow2(k) }

  /** The capacity of the buffer Get returns for n. */
  function Capacity(begin: nat, end: nat, n: int): int {
    if SizeClass(begin, n) <= end then SizeClass(begin, n) else n
  }

  lemma SizeClassIsPow2(begin: nat, n: int)
    requires IsPow2(begin)
    ensures IsPow2(SizeClass(begin, n))
  {
    var m := n % TWO32;
    if 1 <= m <= TWO31 {
      CeilPow2IsLeast(m);
    }
  }

  /** Get(n) returns room for n bytes if and only if n is at most 2^31 or no shard answers. Only
      the low 32 bits of n are rounded, and to 0 if they exceed 2^31; the shard found for what
      they become is too small. */
  lemma CapacitySufficesIff(begin: nat, end: nat, n: nat)
    requires begin <= TWO31 && end <= TWO31
    ensures Capacity(begin, end, n) >= n <==> (n <= TWO31 || SizeClass(begin, n) > end)
  {
    if 1 <= n <= TWO31 {
      ModBasics(n, TWO32);
      CeilPow2IsLeast(n);
    } else if n > TWO31 && SizeClass(begin, n) <= end {
      assert Capacity(begin, end, n) <= end < n;
    }
  }

  /** A buffer obtained for m bytes goes back to the pool if and only if m is within its range. */
  lemma PooledIff(begin: nat, end: nat, m: nat)
    requires IsPow2(begin) && IsPow2(end) && begin <= end && 1 <= m <= TWO31
    ensures IsShard(begin, end, Capacity(begin, end, m)) <==> m <= end
  {
    ModBasics(m, TWO32);
    CeilPow2IsLeast(m);
    SizeClassIsPow2(begin, m);
    var k: nat :| end == Pow2(k);
    assert m <= end ==> CeilPow2(m) <= Pow2(k);
  }

  /** It has the least capacity of a shard that is enough for m bytes, if there is one, and
      otherwise exactly m. */
  lemma CapacityIsLeast(begin: nat, end: nat, m: nat)
    requires IsPow2(begin) && IsPow2(end) && begin <= end && 1 <= m <= TWO31
    ensures var c := Capacity(begin, end, m);
      && (m <= end ==>
            m <= c && IsShard(begin, end, c) && forall k: nat :: IsShard(begin, end, k) && m <= k ==> c <= k)
      && (m > end ==> c == m)
  {
    PooledIff(begin, end, m);
    ModBasics(m, TWO32);
    CeilPow2IsLeast(m);
    if m <= end {
      forall k: nat | IsShard(begin, end, k) && m <= k
        ensures Capacity(begin, end, m) <= k
      {
        var j: nat :| k == Pow2(j);
        assert CeilPow2(m) <= Pow2(j);
      }
    }
  }

  ghost function Members(shards: map<nat, seq<Buffer>>): set<Buffer> {
    set k, i | k in shards && 0 <= i < |shards[k]| :: shards[k][i]
  }

  lemma MembersAppend(shards: map<nat, seq<Buffer>>, k: nat, b: Buffer)
    requires k in shards
    ensures Members(shards[k := shards[k] + [b]]) == Members(shards) + {b}
  {
    var now := shards[k := shards[k] + [b]];
    assert now[k][|shards[k]|] == b;
    forall x | x in Members(shards)
      ensures x in Members(now)
    {
      var k', i :| k' in shards && 0 <= i < |shards[k']| && shards[k'][i] == x;
      assert now[k'][i] == x;
    }
  }

  ghost predicate NoRepeats(shards: map<nat, seq<Buffer>>) {
    forall k, i, j :: k in shards && 0 <= i < j < |shards[k]| ==> shards[k][i] != shards[k][j]
  }

  lemma NoRepeatsAppend(shards: map<nat, seq<Buffer>>, k: nat, b: Buffer)
    requires k in shards && forall k', i :: k' in shards && 0 <= i < |shards[k']| && shards[k'][i] == b ==> k' == k
    ensures NoRepeats(shards[k := shards[k] + [b]]) <==> NoRepeats(shards) && b !in Members(shards)
  {
    var now := shards[k := shards[k] + [b]];
    var n := |shards[k]|;
    assert now[k][n] == b && forall i :: 0 <= i < n ==> now[k][i] == shards[k][i];
    if NoRepeats(now) {
      forall k', i, j | k' in shards && 0 <= i < j < |shards[k']|
        ensures shards[k'][i] != shards[k'][j]
      {
        assert now[k'][i] == shards[k'][i] && now[k'][j] == shards[k'][j];
      }
    }
  }

  class BufferPool {
    const begin: nat
    const end: nat
    var shards: map<nat, seq<Buffer>>

    ghost function Free(): set<Buffer>
      reads this
    {
      Members(shards)
    }

    /** Every pooled buffer sits in the shard of its capacity. */
    ghost predicate Valid()
      reads this, Free()
    {
      && IsPow2(begin) && begin <= TWO31 && end <= TWO31
      && (forall k: nat :: k in shards <==> IsShard(begin, end, k))
      && (forall k, i :: k in shards && 0 <= i < |shards[k]| ==> shards[k][i].cap == k)
    }

    /** No buffer is pooled twice. */
    ghost predicate Distinct()
      reads this
    {
      NoRepeats(shards)
    }

    /** NewBufferPool; with a lower bound outside 1..2^31 its loop would not end. */
    constructor (left: nat, right: nat)
      requires 1 <= left <= TWO31 && right < TWO32
      ensures Valid() && Distinct() && Free() == {}
      ensures begin == CeilPow2(left) && end == Ceil32(right)
    {
      hide Ceil32, U32, Val32;
      ModBasics(left, TWO32);
      ModBasics(right, TWO32);
      U32Val(left);
      U32Val(right);
      var b := BinaryCeil(U32(left));
      var e := BinaryCeil(U32(right));
      begin, end := Val32(b), Val32(e);
      shards := map[];
      CeilBound(left);
      CeilBound(right);
      new;
      var i := begin;
      ghost var p: nat :| begin == Pow2(p);
      ghost var q := p;
      while i <= end
        invariant i == Pow2(q) && p <= q
        invariant forall k: nat :: k in shards <==> IsShard(begin, end, k) && k < i
        invariant forall k :: k in shards ==> shards[k] == []
        decreases end + 1 - i
      {
        NoPow2Between(q);
        shards := shards[i := []];
        i := i * 2;
        q := q + 1;
      }
    }

    /** Put takes whatever it is given: a buffer already pooled is then pooled twice. */
    method Put(b: Buffer?)
      requires Valid()
      modifies this
      ensures Valid()
      ensures b == null || !IsShard(begin, end, b.cap) ==> shards == old(shards)
      ensures b != null && IsShard(begin, end, b.cap) ==> Free() == old(Free()) + {b}
      ensures Distinct() <==> old(Distinct()) && !(b != null && IsShard(begin, end, b.cap) && b in old(Free()))
    {
      if b != null {
        if b.cap in shards {
          MembersAppend(shards, b.cap, b);
          NoRepeatsAppend(shards, b.cap, b);
          shards := shards[b.cap := shards[b.cap] + [b]];
        }
      }
    }

    /** `hit` says whether sync.Pool still has a buffer to give; otherwise New makes one. */
    method Get(n: int, hit: bool) returns (b: Buffer)
      requires Valid() && (n >= 0 || SizeClass(begin, n) <= end)
      modifies this, Free()
      ensures Valid()
      ensures old(Distinct()) ==> Distinct() && b !in Free() && Free() == old(Free()) - {b}
      ensures b in old(Free()) || fresh(b)
      ensures hit && (exists x: Buffer :: x in old(Free()) && old(x.cap) == SizeClass(begin, n)) ==> b in old(Free())
      ensures b.data == [] && b.cap == Capacity(begin, end, n)
    {
      hide Ceil32, U32, Val32, IsPow2;
      U32Val(n);
      SizeClassIsPow2(begin, n);
      var c := BinaryCeil(U32(n));
      var size := Max(Val32(c), begin);
      if size in shards {
        if hit && shards[size] != [] {
          var last := |shards[size]| - 1;
          b := shards[size][last];
          shards := shards[size := shards[size][..last]];
        } else {
          b := new Buffer(size);
        }
        if b.cap < size {
          assert false;     // Grow is never needed: the shard holds buffers of its own size only
        }
        b.data := [];
      } else {
        b := new Buffer(n);
      }
    }
  }

  lemma CeilBound(n: nat)
    ensures Ceil32(n) <= TWO31 && (1 <= n <= TWO31 ==> IsPow2(Ceil32(n)) && Ceil32(n) == CeilPow2(n))
  {
    CeilPow2IsLeast(n);
    if 1 <= n <= TWO31 {
      assert Pow2(31) == TWO31 by { Pow2Of31(); }
    }
  }

  lemma Pow2Of31()
    ensures Pow2(31) == TWO31
  {
    assert Pow2(8) == 256;
    assert Pow2(16) == 0x1_0000;
    assert Pow2(24) == 0x100_0000;
  }

  lemma NoPow2Between(q: nat)
    ensures forall k: nat :: IsPow2(k) && k < Pow2(q + 1) ==> k <= Pow2(q)
  {
    forall k: nat | IsPow2(k) && k < Pow2(q + 1)
      ensures k <= Pow2(q)
    {
      var j: nat :| k == Pow2(j);
      if j > q {
        Pow2Monotone(q + 1, j);
      } else {
        Pow2Monotone(j, q);
      }
    }
  }
}
