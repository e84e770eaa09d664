/** Rounding up to a power of two, done two ways: the doubling loop of internal/utils.go
    (ToBinaryNumber) and the bit smearing of internal/pool.go (binaryCeil). */
module PowersOfTwo {
  import opened Words
  import opened Masks
  import opened Bits

  const TWO31: nat := 0x8000_0000
  const TWO32: nat := 0x1_0000_0000

  ghost predicate IsPow2(n: nat) { exists k :: n == Pow2(k) }

  ghost predicate IsLeastPow2(n: nat, r: nat) {
    IsPow2(r) && n <= r && forall j: nat :: n <= Pow2(j) ==> r <= Pow2(j)
  }

  function Doubled(x: nat, n: nat): nat
    requires x > 0
    decreases n - x
  {
    if x >= n then x else Doubled(2 * x, n)
  }

  function CeilPow2(n: nat): nat { Doubled(1, n) }

  lemma {:induction false} DoubledPow2(k: nat, j: nat, n: nat)
    requires k <= j && n <= Pow2(j) && (k < j ==> Pow2(j - 1) < n)
    ensures Doubled(Pow2(k), n) == Pow2(j)
    decreases j - k
  {
    if k < j {
      Pow2Monotone(k, j - 1);
      DoubledPow2(k + 1, j, n);
    }
  }

  lemma {:induction false} Pow2Monotone(j: nat, k: nat)
    requires j <= k
    ensures Pow2(j) <= Pow2(k)
    decreases k
  {
    if j < k {
      Pow2Monotone(j, k - 1);
    }
  }

  /** A power of two at or above n whose half is below n is the least one, and CeilPow2(n). */
  lemma BetweenPowers(n: nat, k: nat)
    requires n <= Pow2(k) && (k > 0 ==> Pow2(k - 1) < n)
    ensures CeilPow2(n) == Pow2(k) && IsLeastPow2(n, Pow2(k))
  {
    DoubledPow2(0, k, n);
    forall j: nat | n <= Pow2(j)
      ensures Pow2(k) <= Pow2(j)
    {
      if j < k {
        Pow2Monotone(j, k - 1);
      } else {
        Pow2Monotone(k, j);
      }
    }
  }

  lemma {:induction false} ExponentOf(n: nat, k: nat) returns (j: nat)
    requires n <= Pow2(k)
    ensures j <= k && n <= Pow2(j) && (j > 0 ==> Pow2(j - 1) < n)
  {
    j := k;
    if k > 0 && n <= Pow2(k - 1) {
      j := ExponentOf(n, k - 1);
    }
  }

  lemma {:induction false} SomePow2Above(n: nat) returns (k: nat)
    ensures n <= Pow2(k)
  {
    if n == 0 {
      k := 0;
    } else {
      k := SomePow2Above(n - 1);
      k := k + 1;
    }
  }

  lemma CeilPow2IsLeast(n: nat)
    ensures IsLeastPow2(n, CeilPow2(n))
  {
    var k := SomePow2Above(n);
    k := ExponentOf(n, k);
    BetweenPowers(n, k);
  }

  // ---------------------------------------------------------------- ToBinaryNumber

  /** What an unsigned integer of `width` bits keeps of x. */
  function Wrapped(x: nat, width: nat): nat { x % Pow2(width) }

  lemma ModBasics(x: nat, d: nat)
    requires d > 0
    ensures (x < d ==> x % d == x) && d % d == 0 == 0 % d
  {
  }

  lemma WrappedPow2(k: nat, width: nat)
    ensures k < width ==> Wrapped(Pow2(k), width) == Pow2(k)
    ensures Wrapped(Pow2(width), width) == 0 == Wrapped(0, width)
  {
    Pow2Order(k, width);
    ModBasics(Pow2(k), Pow2(width));
  }

  lemma BelowTop(k: nat, n: nat, width: nat)
    requires width > 0 && Pow2(k) < n <= Pow2(width - 1)
    ensures k < width - 1
  {
    Pow2Order(width - 1, k);
  }

  /** ToBinaryNumber on unsigned integers of `width` bits. */
  method ToBinaryNumber(n: nat, width: nat) returns (x: nat)
    requires width > 0 && n <= Pow2(width - 1)
    ensures x == CeilPow2(n) && IsLeastPow2(n, x)
  {
    hide Wrapped, IsLeastPow2;
    x := 1;
    ghost var k := 0;
    while x < n
      invariant x == Pow2(k) && k < width && Doubled(x, n) == CeilPow2(n)
      decreases n - x
    {
      BelowTop(k, n, width);
      WrappedPow2(k + 1, width);
      assert 2 * x == Pow2(k + 1);
      x := Wrapped(2 * x, width);
      k := k + 1;
    }
    CeilPow2IsLeast(n);
  }

  /** The loop variable after `steps` doublings. */
  function LoopVariable(width: nat, steps: nat): nat {
    if steps == 0 then 1 else Wrapped(2 * LoopVariable(width, steps - 1), width)
  }

  lemma {:induction false} LoopVariableIs(width: nat, steps: nat)
    requires width > 0
    ensures LoopVariable(width, steps) == if steps < width then Pow2(steps) else 0
  {
    hide Wrapped;
    if steps > 0 {
      LoopVariableIs(width, steps - 1);
      WrappedPow2(steps, width);
      assert steps <= width ==> 2 * LoopVariable(width, steps - 1) == Pow2(steps);
    }
  }

  /** The doubling loop stops if and only if n is at most half the range of its type. */
  lemma DoublingStopsIff(n: nat, width: nat)
    requires 0 < width && n < Pow2(width)
    ensures (exists steps: nat :: LoopVariable(width, steps) >= n) <==> n <= Pow2(width - 1)
  {
    if n <= Pow2(width - 1) {
      LoopVariableIs(width, width - 1);
      assert LoopVariable(width, width - 1) >= n;
    } else {
      forall steps: nat
        ensures LoopVariable(width, steps) < n
      {
        LoopVariableIs(width, steps);
        if steps < width {
          Pow2Monotone(steps, width - 1);
        }
      }
    }
  }

  // ---------------------------------------------------------------- binaryCeil

  function Narrow(w: bv64): bv32 { (w & 0xFFFF_FFFF) as bv32 }

  function Widen(v: bv32): bv64 { v as bv64 }

  lemma WidenNarrow(w: bv64)
    requires Clear(w, 0xFFFF_FFFF_0000_0000)
    ensures Widen(Narrow(w)) == w
  {
  }

  /** uint32(n) for any int n. */
  function U32(n: int): bv32 { Narrow(Word(n % TWO32, 4)) }

  /** The number a uint32 stands for. */
  function Val32(v: bv32): nat { Val(Widen(v)) }

  lemma U32Val(n: int)
    ensures Val32(U32(n)) == n % TWO32
  {
    hide Word, Clear, Narrow, Widen, Val;
    WordClear(n % TWO32, 4);
    HighBitsTop(4);
    WidenNarrow(Word(n % TWO32, 4));
    assert Pow256(4) == TWO32;
    WordVal(n % TWO32, 4);
  }

  predicate AtMost31(v: bv32) { v != 0 && v <= 0x8000_0000 }

  lemma TopByte()
    ensures Cons(0, Cons(0, Cons(0, Cons(0x80, 0)))) == 0x8000_0000
    ensures (0 as Byte) == 0 && (0x80 as Byte) == 0x80
  {
  }

  lemma Top31()
    ensures Val(0x8000_0000) == TWO31
  {
    hide Cons;
    TopByte();
    assert Word(0x80, 1) == Cons(0x80, 0);
    assert Word(0x8000, 2) == Cons(0, Word(0x80, 1));
    assert Word(0x80_0000, 3) == Cons(0, Word(0x8000, 2));
    assert Word(TWO31, 4) == Cons(0, Word(0x80_0000, 3));
    assert Pow256(4) == TWO32;
    WordVal(TWO31, 4);
  }

  lemma AtMost31Widened(v: bv32)
    ensures AtMost31(v) ==> Widen(v) != 0 && Leq(Widen(v), 0x8000_0000)
    ensures !AtMost31(v) ==> Widen(v) == 0 || (Leq(0x8000_0000, Widen(v)) && Widen(v) != 0x8000_0000)
  {
  }

  lemma AtMost31Val(v: bv32)
    ensures AtMost31(v) <==> 1 <= Val32(v) <= TWO31
  {
    hide Widen, AtMost31, Leq;
    AtMost31Widened(v);
    Top31();
    if AtMost31(v) {
      ValOrder(Widen(v), 0x8000_0000);
    } else if Widen(v) != 0 {
      ValOrder(0x8000_0000, Widen(v));
      if Val(Widen(v)) == TWO31 {
        ValInjective(Widen(v), 0x8000_0000);
      }
    }
  }

  /** The smearing of binaryCeil as one expression. */
  function Smeared(v: bv32): bv32 {
    var a := v - 1;
    var b := a | (a >> 1);
    var c := b | (b >> 2);
    var d := c | (c >> 4);
    var e := d | (d >> 8);
    (e | (e >> 16)) + 1
  }

  lemma SmearedBits(v: bv32)
    requires AtMost31(v)
    ensures var r := Widen(Smeared(v));
      IsPow2Word(r) && Leq(Widen(v), r) && (r == 1 || (Leq(Half(r), Widen(v)) && Half(r) != Widen(v)))
  {
  }

  lemma SmearedWraps(v: bv32)
    requires !AtMost31(v)
    ensures Widen(Smeared(v)) == 0
  {
  }

  /** What binaryCeil computes, on numbers: the least power of two, or 0 when that overflows. */
  function Ceil32(n: nat): nat { if 1 <= n <= TWO31 then CeilPow2(n) else 0 }

  lemma SmearedVal(v: bv32)
    ensures Val32(Smeared(v)) == Ceil32(Val32(v))
  {
    hide Smeared, Widen, AtMost31, Leq, IsPow2Word, Half, Val;
    AtMost31Val(v);
    if AtMost31(v) {
      var r := Widen(Smeared(v));
      SmearedBits(v);
      var k := ValPow2(r);
      ValOrder(Widen(v), r);
      if k > 0 {
        ValOrder(Half(r), Widen(v));
        HalfPow2(r);
        ValUnfold(r);
        if Val(Half(r)) == Val(Widen(v)) {
          ValInjective(Half(r), Widen(v));
        }
      }
      BetweenPowers(Val32(v), k);
    } else {
      SmearedWraps(v);
      ValUnfold(0);
      Small();
    }
  }

  method BinaryCeil(v: bv32) returns (r: bv32)
    ensures Val32(r) == Ceil32(Val32(v))
    ensures 1 <= Val32(v) <= TWO31 ==> IsLeastPow2(Val32(v), Val32(r))
  {
    hide IsLeastPow2;
    r := v;
    r := r - 1;
    r := r | (r >> 1);
    r := r | (r >> 2);
    r := r | (r >> 4);
    r := r | (r >> 8);
    r := r | (r >> 16);
    r := r + 1;
    assert r == Smeared(v);
    SmearedVal(v);
    CeilPow2IsLeast(Val32(v));
  }

  /** The two ways agree wherever neither overflows. */
  lemma SmearingIsDoubling(n: nat)
    requires 1 <= n <= TWO31
    ensures Val32(Smeared(U32(n))) == CeilPow2(n) && IsLeastPow2(n, CeilPow2(n))
  {
    hide Smeared, CeilPow2, U32, Val32, IsLeastPow2;
    ModBasics(n, TWO32);
    U32Val(n);
    SmearedVal(U32(n));
    CeilPow2IsLeast(n);
  }
}
