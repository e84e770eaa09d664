/** The frame masking of internal/utils.go (section 5.3 of RFC 6455). */
module Masks {
  import opened Words

  type Key = k: seq<Byte> | |k| == 4 witness [0, 0, 0, 0]

  function Xor(a: Byte, k: Byte): Byte { a ^ k }

  /** Byte i of the payload is combined with byte i mod 4 of the key. */
  function Masked(s: seq<Byte>, key: Key): seq<Byte> {
    seq(|s|, i requires 0 <= i < |s| => Xor(s[i], key[i % 4]))
  }

  lemma MaskedAt(s: seq<Byte>, key: Key, i: nat)
    requires i < |s|
    ensures |Masked(s, key)| == |s| && Masked(s, key)[i] == s[i] ^ key[i % 4]
  {
  }

  lemma MaskTwice(s: seq<Byte>, key: Key)
    ensures Masked(Masked(s, key), key) == s
  {
    forall i | 0 <= i < |s|
      ensures Masked(Masked(s, key), key)[i] == s[i]
    {
      XorTwice(s[i], key[i % 4]);
    }
  }

  lemma XorTwice(a: Byte, k: Byte)
    ensures Xor(Xor(a, k), k) == a
  {
  }

  /** Cutting the payload at a multiple of four keeps the phase of the key. */
  lemma MaskPhase(s: seq<Byte>, t: seq<Byte>, key: Key)
    ensures Masked(s + t, key)[..|s|] == Masked(s, key)
    ensures |s| % 4 == 0 ==> Masked(s + t, key) == Masked(s, key) + Masked(t, key)
  {
    hide Xor;
  }

  // ---------------------------------------------------------------- little-endian words

  function Cons(b: Byte, w: bv64): bv64 { (b as bv64) | (w << 8) }

  function Low(w: bv64): Byte { (w & 0xFF) as Byte }

  function Rest(w: bv64): bv64 { w >> 8 }

  /** The word whose least significant byte is s[0]: Uint32 on four bytes, Uint64 on eight. */
  function LE(s: seq<Byte>): bv64 {
    if s == [] then 0 else Cons(s[0], LE(s[1..]))
  }

  function PutLE(w: bv64, width: nat): (s: seq<Byte>)
    ensures |s| == width
  {
    if width == 0 then [] else [Low(w)] + PutLE(Rest(w), width - 1)
  }

  function XorWords(v: bv64, w: bv64): bv64 { v ^ w }

  function Twice(m: bv64): bv64 { (m << 32) + m }

  /** The key twice over, as one word. */
  function Key64(key: Key): bv64 { Twice(LE(key)) }

  /** The bits above the low n bytes of a word. */
  function HighBits(n: nat): bv64 {
    if n == 0 then 0xFFFF_FFFF_FFFF_FFFF else HighBits(n - 1) << 8
  }

  predicate Clear(w: bv64, m: bv64) { w & m == 0 }

  lemma ConsClear(a: Byte, r: bv64, m: bv64)
    requires Clear(r, m)
    ensures Clear(Cons(a, r), m << 8)
  {
  }

  lemma {:induction false} LEHighBits(s: seq<Byte>)
    ensures Clear(LE(s), HighBits(|s|))
  {
    hide Cons;
    if s != [] {
      LEHighBits(s[1..]);
      ConsClear(s[0], LE(s[1..]), HighBits(|s| - 1));
    }
  }

  lemma HighBitsTop(n: nat)
    requires n < 8
    ensures HighBits(n) & 0xFF00_0000_0000_0000 == 0xFF00_0000_0000_0000
    ensures n == 4 ==> HighBits(n) == 0xFFFF_FFFF_0000_0000
  {
    assert HighBits(0) == 0xFFFF_FFFF_FFFF_FFFF;
    assert HighBits(1) == 0xFFFF_FFFF_FFFF_FF00;
    assert HighBits(2) == 0xFFFF_FFFF_FFFF_0000;
    assert HighBits(3) == 0xFFFF_FFFF_FF00_0000;
    assert HighBits(4) == 0xFFFF_FFFF_0000_0000;
    assert HighBits(5) == 0xFFFF_FF00_0000_0000;
    assert HighBits(6) == 0xFFFF_0000_0000_0000;
    assert HighBits(7) == 0xFF00_0000_0000_0000;
  }

  lemma ClearSubset(w: bv64, m: bv64, t: bv64)
    requires Clear(w, m) && m & t == t
    ensures Clear(w, t)
  {
  }

  /** Fewer than eight bytes leave the top byte of the word clear. */
  lemma LETop(s: seq<Byte>)
    requires |s| < 8
    ensures Clear(LE(s), 0xFF00_0000_0000_0000)
  {
    LEHighBits(s);
    HighBitsTop(|s|);
    ClearSubset(LE(s), HighBits(|s|), 0xFF00_0000_0000_0000);
  }

  lemma XorStep(a: Byte, k: Byte, r: bv64, q: bv64)
    requires Clear(r, 0xFF00_0000_0000_0000) && Clear(q, 0xFF00_0000_0000_0000)
    ensures Low(XorWords(Cons(a, r), Cons(k, q))) == Xor(a, k)
    ensures Rest(XorWords(Cons(a, r), Cons(k, q))) == XorWords(r, q)
  {
  }

  function XorSeq(s: seq<Byte>, k: seq<Byte>): seq<Byte>
    requires |s| == |k|
  {
    seq(|s|, i requires 0 <= i < |s| => Xor(s[i], k[i]))
  }

  /** Exclusive-or on words is exclusive-or on their bytes. */
  lemma {:induction false} XorIsBytewise(s: seq<Byte>, k: seq<Byte>)
    requires |s| == |k| <= 8
    ensures PutLE(XorWords(LE(s), LE(k)), |s|) == XorSeq(s, k)
  {
    hide Cons, Low, Rest, Clear, Xor, XorWords;
    if s != [] {
      LETop(s[1..]);
      LETop(k[1..]);
      XorStep(s[0], k[0], LE(s[1..]), LE(k[1..]));
      XorIsBytewise(s[1..], k[1..]);
      assert XorSeq(s, k) == [Xor(s[0], k[0])] + XorSeq(s[1..], k[1..]);
    }
  }

  lemma TwiceIsCons(k0: Byte, k1: Byte, k2: Byte, k3: Byte)
    ensures var m := Cons(k0, Cons(k1, Cons(k2, Cons(k3, 0))));
      Clear(m, 0xFFFF_FFFF_0000_0000) ==> Twice(m) == Cons(k0, Cons(k1, Cons(k2, Cons(k3, m))))
  {
    var m := Cons(k0, Cons(k1, Cons(k2, Cons(k3, 0))));
    if Clear(m, 0xFFFF_FFFF_0000_0000) {
      DisjointSum(m);
      FourCons(k0, k1, k2, k3, m);
    }
  }

  lemma DisjointSum(m: bv64)
    requires Clear(m, 0xFFFF_FFFF_0000_0000)
    ensures Twice(m) == (m << 32) | m
  {
  }

  lemma FourCons(k0: Byte, k1: Byte, k2: Byte, k3: Byte, t: bv64)
    ensures Cons(k0, Cons(k1, Cons(k2, Cons(k3, t)))) == (t << 32) | Cons(k0, Cons(k1, Cons(k2, Cons(k3, 0))))
  {
  }

  lemma LE4(k: seq<Byte>, t: seq<Byte>)
    requires |k| == 4
    ensures LE(k + t) == Cons(k[0], Cons(k[1], Cons(k[2], Cons(k[3], LE(t)))))
  {
    hide Cons;
    var s := k + t;
    assert s[1..][1..][1..][1..] == t;
    assert LE(s[1..][1..][1..]) == Cons(k[3], LE(t));
    assert LE(s[1..][1..]) == Cons(k[2], LE(s[1..][1..][1..]));
    assert LE(s[1..]) == Cons(k[1], LE(s[1..][1..]));
  }

  lemma Key64Bytes(key: Key)
    ensures Key64(key) == LE(key + key)
  {
    hide Cons, Twice, Clear;
    LEHighBits(key);
    HighBitsTop(4);
    LE4(key, key);
    LE4(key, []);
    assert key + [] == key;
    TwiceIsCons(key[0], key[1], key[2], key[3]);
  }

  /** One word-wide exclusive-or masks eight bytes. */
  lemma XorWordIsMask(s: seq<Byte>, key: Key)
    requires |s| == 8
    ensures PutLE(XorWords(LE(s), Key64(key)), 8) == Masked(s, key)
  {
    hide LE, PutLE, Key64, Xor, XorWords;
    Key64Bytes(key);
    XorIsBytewise(s, key + key);
    assert XorSeq(s, key + key) == Masked(s, key);
  }

  // ---------------------------------------------------------------- in place

  /** Bytes from..to are masked, counting the key from `from`; the others are as before. */
  ghost predicate MaskedRange(was: seq<Byte>, now: seq<Byte>, from: nat, to: nat, key: Key)
    requires from <= to <= |was|
  {
    && |now| == |was|
    && now[..from] == was[..from]
    && now[from..to] == Masked(was[from..to], key)
    && now[to..] == was[to..]
  }

  lemma MaskedRangeDone(was: seq<Byte>, now: seq<Byte>, from: nat, key: Key)
    requires from <= |was| && MaskedRange(was, now, from, |was|, key)
    ensures now == was[..from] + Masked(was[from..], key)
  {
    assert now == now[..from] + now[from..|was|] + now[|was|..];
    assert was[from..|was|] == was[from..];
  }

  method MaskByByte(content: array<Byte>, key: Key)
    modifies content
    ensures content[..] == Masked(old(content[..]), key)
  {
    for i := 0 to content.Length
      invariant forall k :: 0 <= k < i ==> content[k] == Xor(old(content[k]), key[k % 4])
      invariant forall k :: i <= k < content.Length ==> content[k] == old(content[k])
    {
      content[i] := Xor(content[i], key[i % 4]);
    }
  }

  lemma MaskedRangeStart(was: seq<Byte>, from: nat, key: Key)
    requires from <= |was|
    ensures MaskedRange(was, was, from, from, key)
  {
  }

  lemma MaskedRangeStep(was: seq<Byte>, before: seq<Byte>, now: seq<Byte>, from: nat, mid: nat, to: nat, key: Key)
    requires from <= mid <= to <= |was| && (mid - from) % 4 == 0
    requires MaskedRange(was, before, from, mid, key)
    requires now == before[..mid] + Masked(before[mid..to], key) + before[to..]
    ensures MaskedRange(was, now, from, to, key)
  {
    MaskedLength(before[mid..to], key);
    MaskedLength(was[from..mid], key);
    MaskPhase(was[from..mid], was[mid..to], key);
    hide Masked;
    SameTail(was, before, mid, to);
    assert was[from..to] == was[from..mid] + was[mid..to];
    Spliced(before, Masked(before[mid..to], key), now, from, mid, to);
  }

  lemma MaskedLength(s: seq<Byte>, key: Key)
    ensures |Masked(s, key)| == |s|
  {
  }

  lemma SameTail(was: seq<Byte>, before: seq<Byte>, mid: nat, to: nat)
    requires mid <= to <= |was| == |before| && before[mid..] == was[mid..]
    ensures before[mid..to] == was[mid..to] && before[to..] == was[to..]
  {
    assert before[mid..to] == before[mid..][..to - mid] && was[mid..to] == was[mid..][..to - mid];
    assert before[to..] == before[mid..][to - mid..] && was[to..] == was[mid..][to - mid..];
  }

  lemma Spliced(before: seq<Byte>, part: seq<Byte>, now: seq<Byte>, from: nat, mid: nat, to: nat)
    requires from <= mid <= to <= |before| && |part| == to - mid && now == before[..mid] + part + before[to..]
    ensures |now| == |before| && now[..from] == before[..from] && now[from..to] == before[from..mid] + part
    ensures now[to..] == before[to..]
  {
  }

  /** binary.LittleEndian.Uint64, exclusive-or, and PutUint64 back to the same eight bytes. */
  method XorWord(b: array<Byte>, off: nat, key64: bv64, ghost key: Key, ghost was: seq<Byte>, ghost from: nat)
    requires off + 8 <= b.Length == |was| && key64 == Key64(key)
    requires from <= off && (off - from) % 4 == 0 && MaskedRange(was, b[..], from, off, key)
    modifies b
    ensures MaskedRange(was, b[..], from, off + 8, key)
  {
    hide LE, PutLE, Key64, Masked, MaskedRange, XorWords;
    var v := LE(b[off..off + 8]);
    XorWordIsMask(b[off..off + 8], key);
    var w := PutLE(XorWords(v, key64), 8);
    ghost var before := b[..];
    forall i | 0 <= i < 8 {
      b[off + i] := w[i];
    }
    assert b[..] == before[..off] + w + before[off + 8..];
    MaskedRangeStep(was, before, b[..], from, off, off + 8, key);
  }

  /** The last loop: single bytes, the key counted from where the words stopped. */
  method XorTail(b: array<Byte>, off: nat, key: Key, ghost was: seq<Byte>, ghost from: nat)
    requires from <= off <= b.Length == |was|
    requires (off - from) % 4 == 0 && MaskedRange(was, b[..], from, off, key)
    modifies b
    ensures MaskedRange(was, b[..], from, b.Length, key)
  {
    hide Xor;
    ghost var before := b[..];
    for i := 0 to b.Length - off
      invariant b[..off] == before[..off]
      invariant forall k :: 0 <= k < i ==> b[off + k] == Xor(before[off + k], key[k % 4])
      invariant forall k :: off + i <= k < b.Length ==> b[k] == before[k]
    {
      b[off + i] := Xor(b[off + i], key[i % 4]);
    }
    assert b[..] == before[..off] + Masked(before[off..b.Length], key) + before[b.Length..];
    MaskedRangeStep(was, before, b[..], from, off, b.Length, key);
  }

  /** MaskXOR on b[from..]: blocks of 64 bytes, then words of 8, then single bytes. */
  method MaskXOR(b: array<Byte>, from: nat, key: Key)
    requires from <= b.Length
    modifies b
    ensures b[..] == old(b[..from]) + Masked(old(b[from..]), key)
  {
    hide Key64, Masked, MaskedRange;
    ghost var was := b[..];
    MaskedRangeStart(was, from, key);
    var key64 := Key64(key);
    var off := from;
    while b.Length - off >= 64
      invariant from <= off <= b.Length && (off - from) % 4 == 0
      invariant MaskedRange(was, b[..], from, off, key)
    {
      XorWord(b, off, key64, key, was, from);
      XorWord(b, off + 8, key64, key, was, from);
      XorWord(b, off + 16, key64, key, was, from);
      XorWord(b, off + 24, key64, key, was, from);
      XorWord(b, off + 32, key64, key, was, from);
      XorWord(b, off + 40, key64, key, was, from);
      XorWord(b, off + 48, key64, key, was, from);
      XorWord(b, off + 56, key64, key, was, from);
      off := off + 64;
    }
    while b.Length - off >= 8
      invariant from <= off <= b.Length && (off - from) % 4 == 0
      invariant MaskedRange(was, b[..], from, off, key)
    {
      XorWord(b, off, key64, key, was, from);
      off := off + 8;
    }
    XorTail(b, off, key, was, from);
    MaskedRangeDone(was, b[..], from, key);
  }
}
