/** Machine words, and the numbers they stand for. */
module Bits {
  import opened Words
  import opened Masks

  function Pow2(k: nat): (p: nat)
    ensures p > 0
  {
    if k == 0 then 1 else 2 * Pow2(k - 1)
  }

  lemma {:induction false} Pow2Order(j: nat, k: nat)
    ensures j < k ==> Pow2(j) < Pow2(k)
    decreases k
  {
    if j < k - 1 {
      Pow2Order(j, k - 1);
    }
  }

  function Half(w: bv64): bv64 { w >> 1 }

  predicate Odd(w: bv64) { w & 1 == 1 }

  function OddBit(w: bv64): nat { if Odd(w) then 1 else 0 }

  lemma HalfLess(w: bv64)
    ensures w != 0 ==> Half(w) < w && (Half(w) == 0 ==> Odd(w))
  {
  }

  /** The unsigned number a word stands for. */
  function Val(w: bv64): (v: nat)
    ensures w != 0 ==> v > 0
    decreases w
  {
    if w == 0 then 0 else HalfLess(w); 2 * Val(Half(w)) + OddBit(w)
  }

  predicate Leq(a: bv64, b: bv64) { a <= b }

  lemma HalfMonotone(a: bv64, b: bv64)
    requires Leq(a, b)
    ensures Leq(Half(a), Half(b))
  {
  }

  lemma HalfSame(a: bv64, b: bv64)
    requires Half(a) == Half(b) && Leq(a, b)
    ensures Odd(a) ==> Odd(b)
  {
  }

  lemma HalfOddSame(a: bv64, b: bv64)
    requires Half(a) == Half(b) && (Odd(a) <==> Odd(b))
    ensures a == b
  {
  }

  lemma Small()
    ensures Half(0) == 0 && !Odd(0) && Half(1) == 0 && Odd(1)
  {
  }

  lemma ValUnfold(w: bv64)
    ensures Val(w) == 2 * Val(Half(w)) + OddBit(w)
  {
    Small();
  }

  lemma {:induction false} ValInjective(a: bv64, b: bv64)
    requires Val(a) == Val(b)
    ensures a == b
    decreases Val(a)
  {
    hide Half, Odd, Val;
    ValUnfold(a);
    ValUnfold(b);
    if Val(a) > 0 {
      ValInjective(Half(a), Half(b));
      HalfOddSame(a, b);
    }
  }

  /** Words are ordered as their numbers are. */
  lemma {:induction false} ValOrder(a: bv64, b: bv64)
    requires Leq(a, b)
    ensures Val(a) <= Val(b)
    decreases Val(a)
  {
    hide Half, Odd, Val, Leq;
    ValUnfold(a);
    ValUnfold(b);
    HalfMonotone(a, b);
    if Val(a) > 0 {
      ValOrder(Half(a), Half(b));
      if Val(Half(a)) == Val(Half(b)) {
        ValInjective(Half(a), Half(b));
        HalfSame(a, b);
      }
    }
  }

  // ---------------------------------------------------------------- powers of two

  predicate IsPow2Word(w: bv64) { w != 0 && w & (w - 1) == 0 }

  lemma HalfPow2(w: bv64)
    requires IsPow2Word(w)
    ensures w != 0
    ensures w != 1 ==> IsPow2Word(Half(w)) && !Odd(w)
  {
  }

  /** A power-of-two word stands for a power of two; k is its exponent. */
  lemma {:induction false} ValPow2(w: bv64) returns (k: nat)
    requires IsPow2Word(w)
    ensures Val(w) == Pow2(k) && (w == 1 <==> k == 0)
    decreases Val(w)
  {
    hide Half, Odd, IsPow2Word, Val;
    HalfPow2(w);
    ValUnfold(w);
    if w == 1 {
      Small();
      ValUnfold(0);
      k := 0;
    } else {
      k := ValPow2(Half(w));
      k := k + 1;
    }
  }

  function Below(w: bv64): bv64 { w - 1 }

  function And(h: bv64, m: bv64): bv64 { h & m }

  lemma HalfAnd(h: bv64, m: bv64)
    requires IsPow2Word(m) && m != 1
    ensures Half(And(h, Below(m))) == And(Half(h), Below(Half(m)))
    ensures Odd(And(h, Below(m))) == Odd(h)
  {
  }

  lemma AndNothing(h: bv64)
    ensures And(h, Below(1)) == 0
  {
  }

  lemma ModDouble(a: nat, b: nat, p: nat)
    requires p > 0 && b < 2
    ensures (2 * a + b) % (2 * p) == 2 * (a % p) + b
  {
    var q, r := a / p, a % p;
    assert 2 * a + b == (2 * p) * q + (2 * r + b);
    ModIs(2 * a + b, 2 * p, q, 2 * r + b);
  }

  lemma MultipleIsBig(d: int, k: int)
    requires d > 0
    ensures k >= 1 ==> d * k >= d
    ensures k <= -1 ==> d * k <= -d
  {
    assert d * k == d + d * (k - 1) == -d + d * (k + 1);
  }

  lemma ModIs(x: nat, d: nat, q: nat, r: nat)
    requires r < d && x == d * q + r
    ensures x % d == r
  {
    var q', r' := x / d, x % d;
    assert d * (q' - q) == d * q' - d * q == r - r';
    MultipleIsBig(d, q' - q);
  }

  /** Masking with a power of two less one is taking the remainder. */
  lemma {:induction false} AndIsMod(h: bv64, m: bv64)
    requires IsPow2Word(m)
    ensures Val(m) > 0 && Val(And(h, Below(m))) == Val(h) % Val(m)
    decreases Val(m)
  {
    hide Half, Odd, IsPow2Word, Val, And, Below;
    HalfPow2(m);
    ValUnfold(m);
    ValUnfold(h);
    ValUnfold(And(h, Below(m)));
    ValUnfold(0);
    Small();
    if m == 1 {
      AndNothing(h);
    } else {
      HalfAnd(h, m);
      AndIsMod(Half(h), Half(m));
      ModDouble(Val(Half(h)), OddBit(h), Val(Half(m)));
    }
  }

  // ---------------------------------------------------------------- words from numbers

  /** The conversion of a number to a word of `width` bytes: uint32(n) for width 4. */
  function Word(n: nat, width: nat): bv64 {
    if width == 0 then 0 else Cons((n % 256) as Byte, Word(n / 256, width - 1))
  }

  lemma {:induction false} WordClear(n: nat, width: nat)
    ensures Clear(Word(n, width), HighBits(width))
  {
    hide Cons;
    if width > 0 {
      WordClear(n / 256, width - 1);
      ConsClear((n % 256) as Byte, Word(n / 256, width - 1), HighBits(width - 1));
    }
  }


  predicate BitOf(b: Byte, m: Byte) { b & m != 0 }

  function At(b: Byte, m: Byte): nat { if BitOf(b, m) then 1 else 0 }

  lemma ByteIsItsBits(b: Byte)
    ensures b as nat == At(b, 1) + 2 * At(b, 2) + 4 * At(b, 4) + 8 * At(b, 8)
                     + 16 * At(b, 16) + 32 * At(b, 32) + 64 * At(b, 64) + 128 * At(b, 128)
  {
  }

  lemma EightHalves(b: Byte, r: bv64)
    requires Clear(r, 0xFF00_0000_0000_0000)
    ensures var w := Cons(b, r);
      && (Odd(w) <==> BitOf(b, 1))
      && (Odd(Half(w)) <==> BitOf(b, 2))
      && (Odd(Half(Half(w))) <==> BitOf(b, 4))
      && (Odd(Half(Half(Half(w)))) <==> BitOf(b, 8))
      && (Odd(Half(Half(Half(Half(w))))) <==> BitOf(b, 16))
      && (Odd(Half(Half(Half(Half(Half(w)))))) <==> BitOf(b, 32))
      && (Odd(Half(Half(Half(Half(Half(Half(w))))))) <==> BitOf(b, 64))
      && (Odd(Half(Half(Half(Half(Half(Half(Half(w)))))))) <==> BitOf(b, 128))
      && Half(Half(Half(Half(Half(Half(Half(Half(w)))))))) == r
  {
  }

  lemma EightBits(b: Byte, r: bv64)
    requires Clear(r, 0xFF00_0000_0000_0000)
    ensures var w := Cons(b, r);
      && OddBit(w) == At(b, 1)
      && OddBit(Half(w)) == At(b, 2)
      && OddBit(Half(Half(w))) == At(b, 4)
      && OddBit(Half(Half(Half(w)))) == At(b, 8)
      && OddBit(Half(Half(Half(Half(w))))) == At(b, 16)
      && OddBit(Half(Half(Half(Half(Half(w)))))) == At(b, 32)
      && OddBit(Half(Half(Half(Half(Half(Half(w))))))) == At(b, 64)
      && OddBit(Half(Half(Half(Half(Half(Half(Half(w)))))))) == At(b, 128)
      && Half(Half(Half(Half(Half(Half(Half(Half(w)))))))) == r
  {
    hide Half, Odd, Clear, Cons, BitOf;
    EightHalves(b, r);
  }

  lemma ValCons(b: Byte, r: bv64)
    requires Clear(r, 0xFF00_0000_0000_0000)
    ensures Val(Cons(b, r)) == b as nat + 256 * Val(r)
  {
    hide Val, Half, Odd, OddBit, Clear, Cons, At;
    EightBits(b, r);
    ByteIsItsBits(b);
    var w := Cons(b, r);
    ValUnfold(w);
    ValUnfold(Half(w));
    ValUnfold(Half(Half(w)));
    ValUnfold(Half(Half(Half(w))));
    ValUnfold(Half(Half(Half(Half(w)))));
    ValUnfold(Half(Half(Half(Half(Half(w))))));
    ValUnfold(Half(Half(Half(Half(Half(Half(w)))))));
    ValUnfold(Half(Half(Half(Half(Half(Half(Half(w))))))));
  }

  /** The conversion is exact on numbers that fit. */
  lemma {:induction false} WordVal(n: nat, width: nat)
    requires width <= 8 && n < Pow256(width)
    ensures Val(Word(n, width)) == n
  {
    hide Val, Clear, Cons;
    if width == 0 {
      ValUnfold(0);
      Small();
    } else {
      var r := Word(n / 256, width - 1);
      WordClear(n / 256, width - 1);
      HighBitsTop(width - 1);
      ClearSubset(r, HighBits(width - 1), 0xFF00_0000_0000_0000);
      ByteValue(n % 256);
      ValCons((n % 256) as Byte, r);
      WordVal(n / 256, width - 1);
    }
  }
}
